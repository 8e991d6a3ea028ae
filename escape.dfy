/**
 * The label escape codec (avahi_escape_label / avahi_unescape_label).
 *
 * A label's raw bytes are written as text using the escapes of RFC 1035,
 * section 5.1: `\c` stands for the character c, `\DDD` for the byte whose
 * decimal value is DDD. The unescaper reads one label from a cursor into a
 * longer name and stops after the first unescaped `.`.
 */
module Codec {
  import opened Octets

  /** Bytes written as they are: printable ASCII other than `.` and `\`. */
  predicate Plain(c: Octet) {
    ' ' <= c <= '~' && c != '.' && c != '\\'
  }

  /** The escaped spelling of one raw byte: a plain byte as itself, `.` and
      `\` behind a backslash, any other byte as `\` and three decimal digits. */
  function EscapeOctet(c: Octet): (e: Text)
    ensures 1 <= |e| <= 4
    ensures |e| == 1 <==> Plain(c)
    ensures |e| > 1 ==> e[0] == '\\'
    ensures Plain(c) ==> e == [c]
    ensures c == '.' || c == '\\' ==> e == ['\\', c]
  {
    if c == '.' || c == '\\' then ['\\', c]
    else if Plain(c) then [c]
    else ['\\', DigitChar(c as int / 100), DigitChar(c as int / 10 % 10), DigitChar(c as int % 10)]
  }

  /** Every other byte is written as `\` and the three decimal digits of its value. */
  lemma EscapeDecimal(c: Octet)
    requires !Plain(c) && c != '.' && c != '\\'
    ensures var e := EscapeOctet(c);
      |e| == 4 && e[0] == '\\' && IsDigit(e[1]) && IsDigit(e[2]) && IsDigit(e[3]) &&
      100 * DigitValue(e[1]) + 10 * DigitValue(e[2]) + DigitValue(e[3]) == c as int
  {
    DecimalDigits(c);
  }

  /** The escaped spelling of a raw label. */
  function Escape(raw: Text): (e: Text)
    ensures |raw| <= |e| <= 4 * |raw|
  {
    if raw == [] then [] else EscapeOctet(raw[0]) + Escape(raw[1..])
  }

  lemma {:induction false} EscapeAppend(a: Text, b: Text)
    ensures Escape(a + b) == Escape(a) + Escape(b)
  {
    if a == [] {
      assert a + b == b;
    } else {
      assert (a + b)[1..] == a[1..] + b;
      EscapeAppend(a[1..], b);
    }
  }

  /** Escaping a label with one more byte appends that byte's spelling. */
  lemma EscapeSnoc(raw: Text, c: Octet)
    ensures Escape(raw + [c]) == Escape(raw) + EscapeOctet(c)
  {
    EscapeAppend(raw, [c]);
  }

  /** A label of plain bytes is its own escaped spelling. */
  lemma {:induction false} EscapePlain(raw: Text)
    requires forall i :: 0 <= i < |raw| ==> Plain(raw[i])
    ensures Escape(raw) == raw
  {
    if raw != [] {
      EscapePlain(raw[1..]);
      assert raw == [raw[0]] + raw[1..];
    }
  }

  /** Escaping a prefix one byte longer appends that byte's spelling, and
      no prefix escapes longer than the whole label. */
  lemma EscapePrefix(raw: Text, i: nat)
    requires i < |raw|
    ensures Escape(raw[..i + 1]) == Escape(raw[..i]) + EscapeOctet(raw[i])
    ensures Escape(raw) == Escape(raw[..i + 1]) + Escape(raw[i + 1..])
  {
    PrefixParts(raw, i);
    EscapeSnoc(raw[..i], raw[i]);
    EscapeAppend(raw[..i + 1], raw[i + 1..]);
  }

  lemma PrefixParts(raw: Text, i: nat)
    requires i < |raw|
    ensures raw[..i + 1] == raw[..i] + [raw[i]]
    ensures raw[..i + 1] + raw[i + 1..] == raw
  {
  }

  /** The result of reading one label: its raw bytes, the cursor after what
      was consumed, and whether an unescaped `.` ended it. */
  datatype Cut = Cut(bytes: Text, next: nat, atSeparator: bool)

  /** What the text holds at a cursor: its end, an unescaped separator, one
      (possibly escaped) byte spelled with `width` characters, or a bad escape. */
  datatype Unit = End | Separator | Byte(c: Octet, width: nat) | Malformed

  /** Decodes the unit of text at `pos`: `\` followed by three digits is a
      decimal byte (at most 255), `\` followed by any other character is that
      character, and a `\` that ends the text or starts fewer than three digits
      is malformed. */
  function DecodeUnit(s: Text, pos: nat): (u: Unit)
    requires pos <= |s|
    ensures u.End? <==> pos == |s|
    ensures u.Separator? <==> pos < |s| && s[pos] == '.'
    ensures u.Byte? ==> 1 <= u.width <= 4 && pos + u.width <= |s|
    ensures u.Byte? && u.width == 1 <==> pos < |s| && s[pos] != '.' && s[pos] != '\\'
  {
    if pos == |s| then End
    else if s[pos] == '.' then Separator
    else if s[pos] != '\\' then Byte(s[pos], 1)
    else if pos + 1 == |s| then Malformed
    else if !IsDigit(s[pos + 1]) then Byte(s[pos + 1], 2)
    else if pos + 4 > |s| || !IsDigit(s[pos + 2]) || !IsDigit(s[pos + 3]) then Malformed
    else
      var v := 100 * DigitValue(s[pos + 1]) + 10 * DigitValue(s[pos + 2]) + DigitValue(s[pos + 3]);
      if v > 255 then Malformed else Byte(v as char, 4)
  }

  /**
   * Reads the rest of a label starting at `pos`, with `acc` already decoded.
   * `size` is the capacity of the destination buffer, the NUL included: a
   * label that reaches `size` bytes is refused, as is a malformed escape.
   */
  function ReadLabelFrom(s: Text, pos: nat, size: nat, acc: Text): (r: Result<Cut>)
    requires pos <= |s|
    ensures r.Ok? ==> pos <= r.value.next <= |s| && |acc| <= |r.value.bytes| < size
    ensures r.Ok? && r.value.atSeparator ==> pos < r.value.next && s[r.value.next - 1] == '.'
    ensures r.Ok? && !r.value.atSeparator ==> r.value.next == |s|
    ensures r.Err? ==> r.error == MalformedEscape || r.error == LabelTooLong
    ensures r.Ok? && |r.value.bytes| == |acc| ==> r.value.next == pos + (if r.value.atSeparator then 1 else 0)
    decreases |s| - pos
  {
    if |acc| >= size then Err(LabelTooLong)
    else match DecodeUnit(s, pos)
      case End => Ok(Cut(acc, pos, false))
      case Separator => Ok(Cut(acc, pos + 1, true))
      case Malformed => Err(MalformedEscape)
      case Byte(c, w) => ReadLabelFrom(s, pos + w, size, acc + [c])
  }

  /** Reads one label of `s` at the cursor `pos` into a buffer of `size`
      bytes; a buffer of no bytes cannot even hold the NUL. */
  function ReadLabel(s: Text, pos: nat, size: nat): (r: Result<Cut>)
    requires pos <= |s|
    ensures r.Ok? ==> pos <= r.value.next <= |s| && |r.value.bytes| < size
    ensures r.Ok? && r.value.atSeparator ==> pos < r.value.next && s[r.value.next - 1] == '.'
    ensures r.Ok? && !r.value.atSeparator ==> r.value.next == |s|
    ensures r.Err? ==> r.error == MalformedEscape || r.error == LabelTooLong
    ensures size == 0 ==> r == Err(LabelTooLong)
  {
    ReadLabelFrom(s, pos, size, [])
  }

  /** The decimal escape of a byte decodes back to that byte. */
  lemma DecimalDigits(c: Octet)
    ensures 100 * DigitValue(DigitChar(c as int / 100)) + 10 * DigitValue(DigitChar(c as int / 10 % 10))
            + DigitValue(DigitChar(c as int % 10)) == c as int
  {
    var n := c as int;
    assert n == 100 * (n / 100) + 10 * (n / 10 % 10) + n % 10;
  }

  /** The escaped spelling of a byte decodes as that byte. */
  lemma DecodeEscapedOctet(pre: Text, c: Octet, post: Text)
    ensures DecodeUnit(pre + EscapeOctet(c) + post, |pre|) == Byte(c, |EscapeOctet(c)|)
  {
    var s, e := pre + EscapeOctet(c) + post, EscapeOctet(c);
    assert s[|pre|] == e[0];
    if |e| == 4 {
      assert s[|pre| + 1] == e[1] && s[|pre| + 2] == e[2] && s[|pre| + 3] == e[3];
      DecimalDigits(c);
    } else if |e| == 2 {
      assert s[|pre| + 1] == e[1];
    }
  }

  /** Reading one byte of a label moves the cursor over its spelling. */
  lemma ReadStep(s: Text, pos: nat, size: nat, acc: Text, c: Octet, w: nat)
    requires pos <= |s| && |acc| < size && DecodeUnit(s, pos) == Byte(c, w)
    ensures ReadLabelFrom(s, pos, size, acc) == ReadLabelFrom(s, pos + w, size, acc + [c])
  {
  }

  /** The text at `pos` spells the bytes `raw`, escaped, up to `end`. */
  ghost predicate Spells(s: Text, pos: nat, raw: Text, end: nat)
    requires pos <= |s|
    decreases raw
  {
    if raw == [] then end == pos
    else match DecodeUnit(s, pos)
      case Byte(c, w) => c == raw[0] && Spells(s, pos + w, raw[1..], end)
      case _ => false
  }

  /** Reading over a spelled label decodes exactly that label. */
  lemma {:induction false} ReadSpelled(s: Text, pos: nat, raw: Text, end: nat, size: nat, acc: Text)
    requires pos <= |s| && Spells(s, pos, raw, end)
    requires |acc| + |raw| < size
    ensures end <= |s|
    ensures ReadLabelFrom(s, pos, size, acc) == ReadLabelFrom(s, end, size, acc + raw)
    decreases raw
  {
    if raw == [] {
      assert acc + raw == acc;
    } else {
      var w := DecodeUnit(s, pos).width;
      ReadStep(s, pos, size, acc, raw[0], w);
      ReadSpelled(s, pos + w, raw[1..], end, size, acc + [raw[0]]);
      AppendFirst(acc, raw);
    }
  }

  /** Reading over spelled bytes that fill the buffer fails with LabelTooLong. */
  lemma {:induction false} ReadTooLongFrom(s: Text, pos: nat, raw: Text, end: nat, size: nat, acc: Text)
    requires pos <= |s| && Spells(s, pos, raw, end)
    requires |acc| + |raw| >= size
    ensures ReadLabelFrom(s, pos, size, acc) == Err(LabelTooLong)
    decreases raw
  {
    if |acc| < size {
      var w := DecodeUnit(s, pos).width;
      ReadStep(s, pos, size, acc, raw[0], w);
      ReadTooLongFrom(s, pos + w, raw[1..], end, size, acc + [raw[0]]);
    }
  }

  /** A label whose bytes do not fit the buffer with a NUL is refused as too long. */
  lemma ReadTooLong(s: Text, pos: nat, raw: Text, end: nat, size: nat)
    requires pos <= |s| && Spells(s, pos, raw, end) && |raw| >= size
    ensures ReadLabel(s, pos, size) == Err(LabelTooLong)
  {
    ReadTooLongFrom(s, pos, raw, end, size, []);
  }

  /** A bad escape met before the buffer is full makes the read fail with MalformedEscape. */
  lemma ReadMalformedAt(s: Text, pos: nat, raw: Text, end: nat, size: nat)
    requires pos <= end <= |s| && Spells(s, pos, raw, end) && |raw| < size
    requires DecodeUnit(s, end).Malformed?
    ensures ReadLabel(s, pos, size) == Err(MalformedEscape)
  {
    ReadSpelled(s, pos, raw, end, size, []);
    assert [] + raw == raw;
  }

  /** A backslash that ends the text is a malformed escape. */
  lemma ReadTrailingBackslash(s: Text, pos: nat, raw: Text, size: nat)
    requires 0 < |s| && pos < |s| && s[|s| - 1] == '\\'
    requires Spells(s, pos, raw, |s| - 1) && |raw| < size
    ensures ReadLabel(s, pos, size) == Err(MalformedEscape)
  {
    ReadMalformedAt(s, pos, raw, |s| - 1, size);
  }

  /** A decimal escape above 255 is a malformed escape. */
  lemma ReadDecimalTooLarge(s: Text, pos: nat, raw: Text, end: nat, size: nat)
    requires pos <= end && end + 4 <= |s| && Spells(s, pos, raw, end) && |raw| < size
    requires s[end] == '\\' && IsDigit(s[end + 1]) && IsDigit(s[end + 2]) && IsDigit(s[end + 3])
    requires 100 * DigitValue(s[end + 1]) + 10 * DigitValue(s[end + 2]) + DigitValue(s[end + 3]) > 255
    ensures ReadLabel(s, pos, size) == Err(MalformedEscape)
  {
    ReadMalformedAt(s, pos, raw, end, size);
  }

  /** A backslash and a digit not followed by two more digits is a malformed escape. */
  lemma ReadShortDecimal(s: Text, pos: nat, raw: Text, end: nat, size: nat)
    requires pos <= end && end + 2 <= |s| && Spells(s, pos, raw, end) && |raw| < size
    requires s[end] == '\\' && IsDigit(s[end + 1])
    requires end + 4 > |s| || !IsDigit(s[end + 2]) || !IsDigit(s[end + 3])
    ensures ReadLabel(s, pos, size) == Err(MalformedEscape)
  {
    ReadMalformedAt(s, pos, raw, end, size);
  }

  /**
   * Conversely, a read fails only in those two ways: the bytes spelled before
   * the failure fill the buffer (LabelTooLong), or they fit and a bad escape
   * follows them (MalformedEscape).
   */
  lemma {:induction false} ReadErrorCause(s: Text, pos: nat, size: nat, acc: Text)
    requires pos <= |s| && ReadLabelFrom(s, pos, size, acc).Err?
    ensures exists raw: Text, end: nat :: (pos <= end <= |s| && Spells(s, pos, raw, end) &&
      ((ReadLabelFrom(s, pos, size, acc).error == LabelTooLong && |acc| + |raw| >= size) ||
       (ReadLabelFrom(s, pos, size, acc).error == MalformedEscape && |acc| + |raw| < size &&
        DecodeUnit(s, end).Malformed?)))
    decreases |s| - pos
  {
    var e := ReadLabelFrom(s, pos, size, acc).error;
    if |acc| >= size || DecodeUnit(s, pos).Malformed? {
      assert Spells(s, pos, [], pos);
    } else {
      var c, w := DecodeUnit(s, pos).c, DecodeUnit(s, pos).width;
      ReadStep(s, pos, size, acc, c, w);
      ReadErrorCause(s, pos + w, size, acc + [c]);
      var next, acc' := pos + w, acc + [c];
      var raw', end' :| (next <= end' <= |s| && Spells(s, next, raw', end') &&
        ((ReadLabelFrom(s, next, size, acc').error == LabelTooLong && |acc'| + |raw'| >= size) ||
         (ReadLabelFrom(s, next, size, acc').error == MalformedEscape && |acc'| + |raw'| < size &&
          DecodeUnit(s, end').Malformed?)));
      var raw := [c] + raw';
      assert raw[0] == c && raw[1..] == raw';
      assert Spells(s, pos, raw, end');
    }
  }

  /** An escaped label spells its raw bytes. */
  lemma {:induction false} EscapeSpells(pre: Text, raw: Text, post: Text)
    ensures Spells(pre + Escape(raw) + post, |pre|, raw, |pre| + |Escape(raw)|)
    decreases raw
  {
    if raw != [] {
      var e, tail := EscapeOctet(raw[0]), Escape(raw[1..]);
      assert Escape(raw) == e + tail;
      var s := pre + Escape(raw) + post;
      assert s == pre + e + (tail + post);
      assert s == (pre + e) + tail + post;
      DecodeEscapedOctet(pre, raw[0], tail + post);
      EscapeSpells(pre + e, raw[1..], post);
    }
  }

  lemma AppendFirst(acc: Text, raw: Text)
    requires raw != []
    ensures acc + [raw[0]] + raw[1..] == acc + raw
  {
    assert raw == [raw[0]] + raw[1..];
  }

  /** A stretch of text without `.` or `\` spells itself. */
  lemma {:induction false} SpellsBare(s: Text, pos: nat, end: nat)
    requires pos <= end <= |s|
    requires forall i :: pos <= i < end ==> s[i] != '.' && s[i] != '\\'
    ensures Spells(s, pos, s[pos..end], end)
    decreases end - pos
  {
    if pos < end {
      assert s[pos..end][1..] == s[pos + 1..end];
      SpellsBare(s, pos + 1, end);
    }
  }

  /** One unit of text spells the byte it decodes to. */
  lemma SpellsUnit(s: Text, pos: nat, c: Octet, w: nat)
    requires pos <= |s| && DecodeUnit(s, pos) == Byte(c, w)
    ensures Spells(s, pos, [c], pos + w)
  {
    assert [c][1..] == [];
  }

  /** Two adjacent spellings spell the concatenated bytes. */
  lemma {:induction false} SpellsConcat(s: Text, p: nat, x: Text, q: nat, y: Text, r: nat)
    requires p <= |s| && q <= |s|
    requires Spells(s, p, x, q) && Spells(s, q, y, r)
    ensures Spells(s, p, x + y, r)
    decreases x
  {
    if x == [] {
      assert x + y == y;
    } else {
      var w := DecodeUnit(s, p).width;
      assert (x + y)[1..] == x[1..] + y;
      SpellsConcat(s, p + w, x[1..], q, y, r);
    }
  }

  /** A spelled label that ends at the end of the text or at a separator is
      read as exactly those bytes. */
  lemma SpelledLabel(s: Text, pos: nat, raw: Text, end: nat, size: nat)
    requires pos <= |s| && Spells(s, pos, raw, end) && |raw| < size
    requires end == |s| || (end < |s| && s[end] == '.')
    ensures ReadLabel(s, pos, size) == Ok(Cut(raw, if end == |s| then end else end + 1, end < |s|))
  {
    ReadSpelled(s, pos, raw, end, size, []);
    assert [] + raw == raw;
  }

  /** A spelling keeps its meaning inside any longer text. */
  lemma {:induction false} SpellsWithin(pre: Text, t: Text, post: Text, p: nat, raw: Text, e: nat)
    requires p <= |t| && Spells(t, p, raw, e)
    ensures Spells(pre + t + post, |pre| + p, raw, |pre| + e)
    decreases raw
  {
    if raw != [] {
      var S := pre + t + post;
      var w := DecodeUnit(t, p).width;
      DecodeAppend(t, post, p);
      DecodeShift(S, |pre|, |pre| + p);
      assert S[|pre|..] == t + post;
      SpellsWithin(pre, t, post, p + w, raw[1..], e);
    }
  }

  /** A label holding neither `.` nor `\\`, which spells itself. */
  predicate Bare(l: Text) {
    '.' !in l && '\\' !in l
  }

  lemma BareSpells(pre: Text, l: Text, post: Text)
    requires Bare(l)
    ensures Spells(pre + l + post, |pre|, l, |pre| + |l|)
  {
    var s := pre + l + post;
    assert s[|pre|..|pre| + |l|] == l;
    assert forall i :: |pre| <= i < |pre| + |l| ==> s[i] == l[i - |pre|];
    SpellsBare(s, |pre|, |pre| + |l|);
  }

  /** A bare label spells itself. */
  lemma SpellsSelf(l: Text)
    requires Bare(l)
    ensures Spells(l, 0, l, |l|)
  {
    BareSpells([], l, []);
    assert [] + l + [] == l;
  }

  /** Two texts spelling two byte strings, written one after the other,
      spell the two byte strings one after the other. */
  lemma SpellsJoin(t1: Text, r1: Text, t2: Text, r2: Text)
    requires Spells(t1, 0, r1, |t1|) && Spells(t2, 0, r2, |t2|)
    ensures Spells(t1 + t2, 0, r1 + r2, |t1 + t2|)
  {
    SpellsWithin([], t1, t2, 0, r1, |t1|);
    SpellsWithin(t1, t2, [], 0, r2, |t2|);
    assert [] + t1 + t2 == t1 + t2 && t1 + t2 + [] == t1 + t2;
    SpellsConcat(t1 + t2, 0, r1, |t1|, r2, |t1 + t2|);
  }

  /** The texts of a list written one after the other. */
  function Flatten(T: seq<Text>): (t: Text)
    ensures T == [] ==> t == []
  {
    if T == [] then [] else T[0] + Flatten(T[1..])
  }

  /** Flattening a short list writes its pieces one after the other. */
  lemma FlattenTwo(a: Text, b: Text)
    ensures Flatten([a, b]) == a + b
  {
    assert [a, b][1..] == [b];
  }

  lemma FlattenThree(a: Text, b: Text, c: Text)
    ensures Flatten([a, b, c]) == a + b + c
  {
    assert [a, b, c][1..] == [b, c];
    FlattenTwo(b, c);
  }

  lemma FlattenFour(a: Text, b: Text, c: Text, d: Text)
    ensures Flatten([a, b, c, d]) == a + b + c + d
  {
    assert [a, b, c, d][1..] == [b, c, d];
    FlattenThree(b, c, d);
  }

  lemma FlattenFive(a: Text, b: Text, c: Text, d: Text, e: Text)
    ensures Flatten([a, b, c, d, e]) == a + b + c + d + e
  {
    assert [a, b, c, d, e][1..] == [b, c, d, e];
    FlattenFour(b, c, d, e);
  }

  /** Flattening pieces of at most `n` characters each gives at most `n` per piece. */
  lemma {:induction false} FlattenBound(T: seq<Text>, n: nat)
    requires forall i :: 0 <= i < |T| ==> |T[i]| <= n
    ensures |Flatten(T)| <= n * |T|
    decreases |T|
  {
    if T != [] {
      FlattenBound(T[1..], n);
    }
  }

  /** Texts spelling the byte strings at the same index, flattened, spell
      the flattened byte strings. */
  lemma {:induction false} SpellsFlatten(T: seq<Text>, R: seq<Text>)
    requires |T| == |R| && forall i :: 0 <= i < |T| ==> Spells(T[i], 0, R[i], |T[i]|)
    ensures Spells(Flatten(T), 0, Flatten(R), |Flatten(T)|)
    decreases |T|
  {
    if T != [] {
      SpellsFlatten(T[1..], R[1..]);
      SpellsJoin(T[0], R[0], Flatten(T[1..]), Flatten(R[1..]));
    }
  }

  /** Escaping works piece by piece: escaping pieces one at a time and
      flattening the results escapes the flattened pieces. */
  lemma {:induction false} EscapeFlatten(R: seq<Text>, E: seq<Text>)
    requires |R| == |E| && forall i :: 0 <= i < |R| ==> Escape(R[i]) == E[i]
    ensures Escape(Flatten(R)) == Flatten(E)
    decreases |R|
  {
    if R != [] {
      EscapeFlatten(R[1..], E[1..]);
      EscapeAppend(R[0], Flatten(R[1..]));
    }
  }

  /** A bare label followed by the end of the name or a separator is read as it is. */
  lemma BareRoundTrip(pre: Text, l: Text, rest: Text, size: nat)
    requires Bare(l) && |l| < size
    requires rest == [] || rest[0] == '.'
    ensures var s := pre + l + rest;
            ReadLabel(s, |pre|, size) == Ok(Cut(l, |pre| + |l| + (if rest == [] then 0 else 1), rest != []))
  {
    var s, end := pre + l + rest, |pre| + |l|;
    BareSpells(pre, l, rest);
    if rest != [] {
      assert s[end] == rest[0];
    }
    SpelledLabel(s, |pre|, l, end, size);
  }

  /**
   * Escaping then unescaping is the identity: a label escaped inside a longer
   * name, and followed by the end of the name or by a separator, is read back
   * byte for byte, and the cursor ends after the separator.
   */
  lemma EscapeRoundTrip(pre: Text, raw: Text, rest: Text, size: nat)
    requires |raw| < size
    requires rest == [] || rest[0] == '.'
    ensures var s := pre + Escape(raw) + rest;
            ReadLabel(s, |pre|, size) == Ok(Cut(raw, |pre| + |Escape(raw)| + (if rest == [] then 0 else 1), rest != []))
  {
    var e := Escape(raw);
    var s, end := pre + e + rest, |pre| + |e|;
    EscapeSpells(pre, raw, rest);
    if rest == [] {
      SpelledLabel(s, |pre|, raw, end, size);
    } else {
      assert s[end] == rest[0];
      SpelledSeparated(s, |pre|, raw, end, size);
    }
  }

  /** A slice cut out of a text and put back between its neighbours gives the text. */
  lemma Around(s: Text, i: nat, j: nat)
    requires i <= j <= |s|
    ensures s[..i] + s[i..j] + s[j..] == s
  {
  }

  /** An escaped label found anywhere inside a longer text spells its bytes there. */
  lemma SpellsAt(s: Text, pos: nat, raw: Text)
    requires pos + |Escape(raw)| <= |s| && s[pos..pos + |Escape(raw)|] == Escape(raw)
    ensures Spells(s, pos, raw, pos + |Escape(raw)|)
  {
    var k := pos + |Escape(raw)|;
    Around(s, pos, k);
    EscapeSpells(s[..pos], raw, s[k..]);
  }

  /** An escaped label that a separator follows somewhere inside a longer
      text is read back from its start up to that separator. */
  lemma ReadEscapedAt(s: Text, pos: nat, raw: Text, size: nat)
    requires |raw| < size && pos + |Escape(raw)| < |s|
    requires s[pos..pos + |Escape(raw)|] == Escape(raw) && s[pos + |Escape(raw)|] == '.'
    ensures ReadLabel(s, pos, size) == Ok(Cut(raw, pos + |Escape(raw)| + 1, true))
  {
    SpellsAt(s, pos, raw);
    SpelledLabel(s, pos, raw, pos + |Escape(raw)|, size);
  }

  /** An escaped label that runs to the end of a longer text is read back
      from its start to the end, with no separator. */
  lemma ReadEscapedToEnd(s: Text, pos: nat, raw: Text, size: nat)
    requires |raw| < size && pos + |Escape(raw)| == |s|
    requires s[pos..pos + |Escape(raw)|] == Escape(raw)
    ensures ReadLabel(s, pos, size) == Ok(Cut(raw, |s|, false))
  {
    SpellsAt(s, pos, raw);
    SpelledLabel(s, pos, raw, pos + |Escape(raw)|, size);
  }

  /** An escaped label found inside a longer text, with as many bytes as the
      buffer holds or more, is refused there. */
  lemma ReadEscapedTooLong(s: Text, pos: nat, raw: Text, size: nat)
    requires |raw| >= size && pos + |Escape(raw)| <= |s|
    requires s[pos..pos + |Escape(raw)|] == Escape(raw)
    ensures ReadLabel(s, pos, size) == Err(LabelTooLong)
  {
    SpellsAt(s, pos, raw);
    ReadTooLong(s, pos, raw, pos + |Escape(raw)|, size);
  }

  /** A bare label that a separator follows somewhere inside a longer text
      is read as it is, up to that separator. */
  lemma ReadBareAt(s: Text, pos: nat, l: Text, size: nat)
    requires Bare(l) && |l| < size && pos + |l| < |s|
    requires s[pos..pos + |l|] == l && s[pos + |l|] == '.'
    ensures ReadLabel(s, pos, size) == Ok(Cut(l, pos + |l| + 1, true))
  {
    var k := pos + |l|;
    Around(s, pos, k);
    BareSpells(s[..pos], l, s[k..]);
    SpelledLabel(s, pos, l, k, size);
  }

  /** A spelled label that a separator ends is read up to and past that separator. */
  lemma SpelledSeparated(s: Text, pos: nat, raw: Text, end: nat, size: nat)
    requires pos <= |s| && Spells(s, pos, raw, end) && |raw| < size
    requires end < |s| && s[end] == '.'
    ensures ReadLabel(s, pos, size) == Ok(Cut(raw, end + 1, true))
  {
    SpelledLabel(s, pos, raw, end, size);
  }

  /** A whole spelled label keeps its meaning inside any longer text. */
  lemma WholeSpells(pre: Text, t: Text, post: Text, raw: Text)
    requires Spells(t, 0, raw, |t|)
    ensures Spells(pre + t + post, |pre|, raw, |pre| + |t|)
  {
    SpellsWithin(pre, t, post, 0, raw, |t|);
  }

  /** An escaped label that is the whole text is read back up to the end of the text. */
  lemma ReadEscapedWhole(e: Text, raw: Text, size: nat)
    requires |raw| < size && e == Escape(raw)
    ensures ReadLabel(e, 0, size) == Ok(Cut(raw, |e|, false))
  {
    SpellsAt(e, 0, raw);
    SpelledLabel(e, 0, raw, |e|, size);
  }

  /** A read result with its cursor moved forward by `k`. */
  function Moved(r: Result<Cut>, k: nat): Result<Cut> {
    if r.Ok? then Ok(r.value.(next := r.value.next + k)) else r
  }

  /** Decoding only looks at the text from the cursor on. */
  lemma DecodeShift(s: Text, k: nat, pos: nat)
    requires k <= pos <= |s|
    ensures DecodeUnit(s, pos) == DecodeUnit(s[k..], pos - k)
  {
    var t := s[k..];
    assert forall j :: pos <= j < |s| ==> t[j - k] == s[j];
  }

  /** Reading a label from a suffix of the text gives the same label, with
      the cursor counted from the start of the suffix. */
  lemma {:induction false} ReadShift(s: Text, k: nat, pos: nat, size: nat, acc: Text)
    requires k <= pos <= |s|
    ensures ReadLabelFrom(s, pos, size, acc) == Moved(ReadLabelFrom(s[k..], pos - k, size, acc), k)
    decreases |s| - pos
  {
    DecodeShift(s, k, pos);
    if |acc| < size {
      match DecodeUnit(s, pos)
      case Byte(c, w) =>
        ReadShift(s, k, pos + w, size, acc + [c]);
      case _ =>
    }
  }

  /** Text appended after a unit that decodes does not change it. */
  lemma DecodeAppend(s: Text, t: Text, pos: nat)
    requires pos < |s| && !DecodeUnit(s, pos).Malformed?
    ensures DecodeUnit(s + t, pos) == DecodeUnit(s, pos)
  {
    var u := s + t;
    assert forall j :: pos <= j < |s| ==> u[j] == s[j];
  }

  /** Appending a separator to a name ends a label that ran to the end of
      the text at that separator, and changes no other reading. */
  lemma {:induction false} ReadAppendDot(s: Text, pos: nat, size: nat, acc: Text)
    requires pos <= |s| && ReadLabelFrom(s, pos, size, acc).Ok?
    ensures var c := ReadLabelFrom(s, pos, size, acc).value;
            ReadLabelFrom(s + Dot, pos, size, acc) == Ok(if c.atSeparator then c else Cut(c.bytes, |s| + 1, true))
    decreases |s| - pos
  {
    if pos < |s| {
      DecodeAppend(s, Dot, pos);
      match DecodeUnit(s, pos)
      case Byte(c, w) =>
        ReadAppendDot(s, pos + w, size, acc + [c]);
      case _ =>
    } else {
      assert (s + Dot)[pos] == '.';
    }
  }

  /**
   * Reads one label at the cursor `pos` of `s` into a buffer of `size` bytes,
   * the way the library's scanner does it: byte by byte, decoding escapes.
   */
  method UnescapeLabel(s: Text, pos: nat, size: nat) returns (r: Result<Cut>)
    requires pos <= |s| && size > 0
    ensures r == ReadLabel(s, pos, size)
  {
    var p: nat, d: Text := pos, [];
    while true
      invariant pos <= p <= |s|
      invariant ReadLabelFrom(s, p, size, d) == ReadLabel(s, pos, size)
      decreases |s| - p
    {
      if |d| >= size {
        return Err(LabelTooLong);
      }
      if p == |s| {
        return Ok(Cut(d, p, false));
      }
      if s[p] == '.' {
        return Ok(Cut(d, p + 1, true));
      }
      if s[p] != '\\' {
        d, p := d + [s[p]], p + 1;
      } else if p + 1 == |s| {
        return Err(MalformedEscape);
      } else if !IsDigit(s[p + 1]) {
        d, p := d + [s[p + 1]], p + 2;
      } else {
        if p + 4 > |s| || !IsDigit(s[p + 2]) || !IsDigit(s[p + 3]) {
          return Err(MalformedEscape);
        }
        var v := 100 * DigitValue(s[p + 1]) + 10 * DigitValue(s[p + 2]) + DigitValue(s[p + 3]);
        if v > 255 {
          return Err(MalformedEscape);
        }
        d, p := d + [v as char], p + 4;
      }
    }
  }

  /**
   * A caller-supplied output buffer and the write position in it: the
   * `(char **ret_name, size_t *ret_size)` pair the escaper advances.
   * `Room()` is the size still available, the terminating NUL included.
   */
  class Writer {
    var buf: array<Octet>
    var pos: nat

    ghost predicate Valid()
      reads this
    {
      pos < buf.Length
    }

    function Written(): Text
      reads this, buf
      requires Valid()
    {
      buf[..pos]
    }

    function Room(): nat
      reads this
      requires Valid()
    {
      buf.Length - pos
    }

    constructor (size: nat)
      requires size > 0
      ensures Valid() && fresh(buf) && buf.Length == size && Written() == []
    {
      buf := new Octet[size](_ => NUL);
      pos := 0;
    }

    /** Appends `piece`, leaving room for the NUL after it. */
    method Put(piece: Text)
      requires Valid() && |piece| < Room()
      modifies this, buf
      ensures Valid() && buf == old(buf)
      ensures Written() == old(Written()) + piece
      ensures forall j :: pos <= j < buf.Length ==> buf[j] == old(buf[j])
    {
      var i := 0;
      while i < |piece|
        invariant 0 <= i <= |piece| && buf == old(buf)
        invariant pos == old(pos) + i && Valid()
        invariant buf[..pos] == old(buf[..pos]) + piece[..i]
        invariant forall j :: pos <= j < buf.Length ==> buf[j] == old(buf[j])
      {
        buf[pos] := piece[i];
        pos := pos + 1;
        i := i + 1;
      }
      assert piece[..i] == piece;
    }
  }

  /**
   * Escapes `raw` into the writer, byte by byte, and terminates it with a NUL.
   * It fails when the escaped label and its NUL do not fit; the bytes written
   * before the failure stay written, as in the library.
   */
  method EscapeLabel(raw: Text, w: Writer) returns (ok: bool)
    requires w.Valid()
    modifies w, w.buf
    ensures w.Valid() && w.buf == old(w.buf)
    ensures ok <==> |Escape(raw)| < old(w.Room())
    ensures ok ==> w.Written() == old(w.Written()) + Escape(raw) && w.buf[w.pos] == NUL
    ensures ok ==> forall j :: w.pos < j < w.buf.Length ==> w.buf[j] == old(w.buf[j])
    ensures !ok ==> old(w.Written()) <= w.Written() <= old(w.Written()) + Escape(raw)
    ensures !ok ==> forall j :: w.pos <= j < w.buf.Length ==> w.buf[j] == old(w.buf[j])
  {
    var i := 0;
    while i < |raw|
      invariant 0 <= i <= |raw|
      invariant w.Valid() && w.buf == old(w.buf)
      invariant w.Written() == old(w.Written()) + Escape(raw[..i])
      invariant forall j :: w.pos <= j < w.buf.Length ==> w.buf[j] == old(w.buf[j])
    {
      var piece := EscapeOctet(raw[i]);
      EscapePrefix(raw, i);
      if |piece| >= w.Room() {
        Associative(Escape(raw[..i]), piece, Escape(raw[i + 1..]));
        Associative(old(w.Written()), Escape(raw[..i]), piece + Escape(raw[i + 1..]));
        return false;
      }
      w.Put(piece);
      Associative(old(w.Written()), Escape(raw[..i]), piece);
      i := i + 1;
    }
    assert raw[..i] == raw;
    w.buf[w.pos] := NUL;
    return true;
  }
}
