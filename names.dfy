/**
 * Whole names (avahi_normalize_name, avahi_domain_equal, avahi_domain_hash).
 *
 * A textual name is a run of escaped labels separated by unescaped dots.
 * Reading it label by label with the cursor of the codec gives its raw
 * labels; normalization, comparison and hashing all work on those.
 */
module Names {
  import opened Octets
  import opened Codec

  /**
   * The raw pieces of `s` between unescaped dots, from `pos` on, each read
   * into a label buffer. A separator at the very end leaves an empty last
   * piece: "a." has the pieces "a" and "", "" has the single piece "".
   */
  function SegmentsFrom(s: Text, pos: nat): (r: Result<seq<Text>>)
    requires pos <= |s|
    ensures r.Ok? ==> |r.value| >= 1
    ensures r.Ok? ==> forall i :: 0 <= i < |r.value| ==> |r.value[i]| < LabelMax
    ensures r.Err? ==> r.error == MalformedEscape || r.error == LabelTooLong
    decreases |s| - pos
  {
    var cut :- ReadLabel(s, pos, LabelMax);
    if cut.atSeparator then
      var rest :- SegmentsFrom(s, cut.next);
      Ok([cut.bytes] + rest)
    else
      Ok([cut.bytes])
  }

  /** The raw pieces of a whole name; "" is the single empty piece. */
  function Segments(s: Text): (r: Result<seq<Text>>)
    ensures r.Ok? ==> |r.value| >= 1 && forall i :: 0 <= i < |r.value| ==> |r.value[i]| < LabelMax
    ensures r.Err? ==> r.error == MalformedEscape || r.error == LabelTooLong
    ensures s == [] ==> r == Ok([[]])
  {
    SegmentsFrom(s, 0)
  }

  /** The pieces of a name read from a cursor are the pieces of the text
      that follows the cursor. */
  lemma {:induction false} SegmentsShift(s: Text, k: nat, pos: nat)
    requires k <= pos <= |s|
    ensures SegmentsFrom(s, pos) == SegmentsFrom(s[k..], pos - k)
    decreases |s| - pos
  {
    ReadShift(s, k, pos, LabelMax, []);
    var r := ReadLabel(s, pos, LabelMax);
    if r.Ok? && r.value.atSeparator {
      SegmentsShift(s, k, r.value.next);
    }
  }

  /** The first piece is the label at the cursor; when more follow, that
      label ended at a separator and the rest are the pieces after it. */
  lemma SegmentsUncons(s: Text, pos: nat)
    requires pos <= |s| && SegmentsFrom(s, pos).Ok?
    ensures var segs, c := SegmentsFrom(s, pos).value, ReadLabel(s, pos, LabelMax);
            c.Ok? && c.value.bytes == segs[0] && (|segs| > 1 <==> c.value.atSeparator) &&
            (c.value.atSeparator ==> SegmentsFrom(s, c.value.next) == Ok(segs[1..]))
  {
  }

  /** The canonical spelling of a list of raw labels: each escaped, joined by dots. */
  function JoinEscaped(L: seq<Text>): Text
    requires |L| >= 1
  {
    if |L| == 1 then Escape(L[0]) else Escape(L[0]) + Dot + JoinEscaped(L[1..])
  }

  /** Reading a label that ends at a separator puts it in front of the
      pieces that follow. */
  lemma SegmentsStep(s: Text, pos: nat, l: Text, next: nat, rest: seq<Text>)
    requires pos <= |s| && ReadLabel(s, pos, LabelMax) == Ok(Cut(l, next, true))
    requires next <= |s| && SegmentsFrom(s, next) == Ok(rest)
    ensures SegmentsFrom(s, pos) == Ok([l] + rest)
  {
  }

  lemma JoinParts(pre: Text, L: seq<Text>)
    requires |L| >= 2
    ensures pre + JoinEscaped(L) == pre + Escape(L[0]) + (Dot + JoinEscaped(L[1..]))
    ensures pre + JoinEscaped(L) == (pre + Escape(L[0]) + Dot) + JoinEscaped(L[1..])
  {
    var head, tail := Escape(L[0]), JoinEscaped(L[1..]);
    assert JoinEscaped(L) == head + Dot + tail;
    Associative(head, Dot, tail);
    Associative(pre, head, Dot + tail);
    Associative(pre, head + Dot, tail);
    Associative(pre, head, Dot);
  }

  /** An escaped label and a separator in front of a text whose pieces are
      `rest`: the label's bytes come first. */
  lemma EscapedConsAt(pre: Text, e: Text, raw: Text, t: Text, rest: seq<Text>)
    requires e == Escape(raw) && |raw| < LabelMax
    requires SegmentsFrom(pre + e + Dot + t, |pre + e + Dot|) == Ok(rest)
    ensures SegmentsFrom(pre + e + Dot + t, |pre|) == Ok([raw] + rest)
  {
    var s := pre + e + Dot + t;
    var k := |pre| + |e|;
    assert |pre + e + Dot| == k + 1;
    assert s[|pre|..k] == e && s[k] == '.';
    ReadEscapedAt(s, |pre|, raw, LabelMax);
    SegmentsStep(s, |pre|, raw, |pre + e + Dot|, rest);
  }

  /** The same for a bare label, which is its own spelling. */
  lemma BareConsAt(pre: Text, l: Text, raw: Text, t: Text, rest: seq<Text>)
    requires l == raw && Bare(l) && |raw| < LabelMax
    requires SegmentsFrom(pre + l + Dot + t, |pre + l + Dot|) == Ok(rest)
    ensures SegmentsFrom(pre + l + Dot + t, |pre|) == Ok([raw] + rest)
  {
    var s := pre + l + Dot + t;
    var k := |pre| + |l|;
    assert |pre + l + Dot| == k + 1;
    assert s[|pre|..k] == l && s[k] == '.';
    ReadBareAt(s, |pre|, l, LabelMax);
    SegmentsStep(s, |pre|, raw, |pre + l + Dot|, rest);
  }

  /** The same for any text spelling the label's bytes. */
  lemma SpelledConsAt(pre: Text, a: Text, raw: Text, t: Text, rest: seq<Text>)
    requires Spells(a, 0, raw, |a|) && |raw| < LabelMax
    requires SegmentsFrom(pre + a + Dot + t, |pre + a + Dot|) == Ok(rest)
    ensures SegmentsFrom(pre + a + Dot + t, |pre|) == Ok([raw] + rest)
  {
    var s := pre + a + Dot + t;
    var k := |pre| + |a|;
    assert |pre + a + Dot| == k + 1;
    assert ReadLabel(s, |pre|, LabelMax) == Ok(Cut(raw, |pre + a + Dot|, true)) by {
      assert pre + a + (Dot + t) == s;
      WholeSpells(pre, a, Dot + t, raw);
      SpelledSeparated(s, |pre|, raw, k, LabelMax);
    }
    SegmentsStep(s, |pre|, raw, |pre + a + Dot|, rest);
  }

  /** Splitting the canonical spelling of labels gives those labels back. */
  lemma {:induction false} SegmentsOfJoined(pre: Text, L: seq<Text>)
    requires |L| >= 1 && forall i :: 0 <= i < |L| ==> |L[i]| < LabelMax
    ensures SegmentsFrom(pre + JoinEscaped(L), |pre|) == Ok(L)
    decreases |L|
  {
    if |L| == 1 {
      assert pre + JoinEscaped(L) == pre + Escape(L[0]) + [];
      EscapeRoundTrip(pre, L[0], [], LabelMax);
      assert L == [L[0]];
    } else {
      SegmentsOfJoined(pre + Escape(L[0]) + Dot, L[1..]);
      JoinedStep(pre, L);
    }
  }

  /** The inductive step of SegmentsOfJoined: the first escaped label reads
      back and the remaining pieces follow it. */
  lemma JoinedStep(pre: Text, L: seq<Text>)
    requires |L| >= 2 && |L[0]| < LabelMax
    requires SegmentsFrom(pre + Escape(L[0]) + Dot + JoinEscaped(L[1..]), |pre + Escape(L[0]) + Dot|) == Ok(L[1..])
    ensures SegmentsFrom(pre + JoinEscaped(L), |pre|) == Ok(L)
  {
    var t := JoinEscaped(L[1..]);
    var s := pre + JoinEscaped(L);
    assert s == pre + Escape(L[0]) + Dot + t by {
      JoinParts(pre, L);
    }
    EscapedConsAt(pre, Escape(L[0]), L[0], t, L[1..]);
    assert L == [L[0]] + L[1..];
  }

  lemma SegmentsOfCanonical(L: seq<Text>)
    requires |L| >= 1 && forall i :: 0 <= i < |L| ==> |L[i]| < LabelMax
    ensures Segments(JoinEscaped(L)) == Ok(L)
  {
    SegmentsOfJoined([], L);
    assert [] + JoinEscaped(L) == JoinEscaped(L);
  }

  /** Bare labels joined by dots, the way names are usually written. */
  function Dotted(L: seq<Text>): Text
    requires |L| >= 1
  {
    if |L| == 1 then L[0] else L[0] + Dot + Dotted(L[1..])
  }

  lemma DottedParts(pre: Text, L: seq<Text>)
    requires |L| >= 2
    ensures pre + Dotted(L) == pre + L[0] + (Dot + Dotted(L[1..]))
    ensures pre + Dotted(L) == (pre + L[0] + Dot) + Dotted(L[1..])
  {
    var tail := Dotted(L[1..]);
    assert Dotted(L) == L[0] + Dot + tail;
    Associative(L[0], Dot, tail);
    Associative(pre, L[0], Dot + tail);
    Associative(pre, L[0] + Dot, tail);
    Associative(pre, L[0], Dot);
  }

  /** Splitting bare labels joined by dots gives those labels back. */
  lemma {:induction false} SegmentsOfDotted(pre: Text, L: seq<Text>)
    requires |L| >= 1 && forall l :: l in L ==> Bare(l) && |l| < LabelMax
    ensures SegmentsFrom(pre + Dotted(L), |pre|) == Ok(L)
    decreases |L|
  {
    assert L[0] in L;
    if |L| == 1 {
      assert pre + Dotted(L) == pre + L[0] + [];
      BareRoundTrip(pre, L[0], [], LabelMax);
      assert L == [L[0]];
    } else {
      assert forall l :: l in L[1..] ==> l in L;
      SegmentsOfDotted(pre + L[0] + Dot, L[1..]);
      DottedStep(pre, L);
    }
  }

  /** The inductive step of SegmentsOfDotted: the first bare label reads
      back and the remaining pieces follow it. */
  lemma DottedStep(pre: Text, L: seq<Text>)
    requires |L| >= 2 && Bare(L[0]) && |L[0]| < LabelMax
    requires SegmentsFrom(pre + L[0] + Dot + Dotted(L[1..]), |pre + L[0] + Dot|) == Ok(L[1..])
    ensures SegmentsFrom(pre + Dotted(L), |pre|) == Ok(L)
  {
    var t := Dotted(L[1..]);
    var s := pre + Dotted(L);
    assert s == pre + L[0] + Dot + t by {
      DottedParts(pre, L);
    }
    BareConsAt(pre, L[0], L[0], t, L[1..]);
    assert L == [L[0]] + L[1..];
  }

  /** Joining two lists of labels joins their spellings with a separator. */
  lemma {:induction false} DottedSplit(A: seq<Text>, B: seq<Text>)
    requires |A| >= 1 && |B| >= 1
    ensures Dotted(A + B) == Dotted(A) + Dot + Dotted(B)
    decreases |A|
  {
    if |A| == 1 {
      assert (A + B)[1..] == B;
    } else {
      assert (A + B)[1..] == A[1..] + B;
      DottedSplit(A[1..], B);
      Associative(A[0] + Dot, Dotted(A[1..]) + Dot, Dotted(B));
      Associative(A[0] + Dot, Dotted(A[1..]), Dot);
    }
  }

  /** Each text of `T` spelling the label of `R` at the same index, the
      texts joined by dots are the pieces `R`. */
  lemma {:induction false} SegmentsOfSpelled(pre: Text, T: seq<Text>, R: seq<Text>)
    requires |T| == |R| >= 1
    requires forall i :: 0 <= i < |T| ==> Spells(T[i], 0, R[i], |T[i]|) && |R[i]| < LabelMax
    ensures SegmentsFrom(pre + Dotted(T), |pre|) == Ok(R)
    decreases |T|
  {
    if |T| == 1 {
      var s := pre + T[0] + [];
      assert pre + Dotted(T) == s;
      SpellsWithin(pre, T[0], [], 0, R[0], |T[0]|);
      SpelledLabel(s, |pre|, R[0], |pre| + |T[0]|, LabelMax);
      assert R == [R[0]];
    } else {
      SegmentsOfSpelled(pre + T[0] + Dot, T[1..], R[1..]);
      SpelledStep(pre, T, R);
    }
  }

  /** The inductive step of SegmentsOfSpelled. */
  lemma SpelledStep(pre: Text, T: seq<Text>, R: seq<Text>)
    requires |T| == |R| >= 2 && Spells(T[0], 0, R[0], |T[0]|) && |R[0]| < LabelMax
    requires SegmentsFrom(pre + T[0] + Dot + Dotted(T[1..]), |pre + T[0] + Dot|) == Ok(R[1..])
    ensures SegmentsFrom(pre + Dotted(T), |pre|) == Ok(R)
  {
    var t := Dotted(T[1..]);
    var s := pre + Dotted(T);
    assert s == pre + T[0] + Dot + t by {
      DottedParts(pre, T);
    }
    SpelledConsAt(pre, T[0], R[0], t, R[1..]);
    assert R == [R[0]] + R[1..];
  }

  lemma SegmentsOfSpellings(T: seq<Text>, R: seq<Text>)
    requires |T| == |R| >= 1
    requires forall i :: 0 <= i < |T| ==> Spells(T[i], 0, R[i], |T[i]|) && |R[i]| < LabelMax
    ensures Segments(Dotted(T)) == Ok(R)
  {
    SegmentsOfSpelled([], T, R);
    assert [] + Dotted(T) == Dotted(T);
  }

  lemma SegmentsOfBare(L: seq<Text>)
    requires |L| >= 1 && forall l :: l in L ==> Bare(l) && |l| < LabelMax
    ensures Segments(Dotted(L)) == Ok(L)
  {
    SegmentsOfDotted([], L);
    assert [] + Dotted(L) == Dotted(L);
  }

  /** A spelled label, a separator and a name: the label's bytes come
      before the pieces of that name. */
  lemma SegmentsCons(t: Text, raw: Text, rest: Text, R: seq<Text>)
    requires Spells(t, 0, raw, |t|) && |raw| < LabelMax && Segments(rest) == Ok(R)
    ensures Segments(t + Dot + rest) == Ok([raw] + R)
  {
    TailSegments(t, rest, R);
    SpelledFirst(t, raw, rest, R);
  }

  /** The pieces after the first separator are those of the text after it. */
  lemma TailSegments(t: Text, rest: Text, R: seq<Text>)
    requires Segments(rest) == Ok(R)
    ensures SegmentsFrom(t + Dot + rest, |t| + 1) == Ok(R)
  {
    var s := t + Dot + rest;
    assert s[|t| + 1..] == rest;
    SegmentsSuffix(s, |t| + 1);
  }

  /** The pieces from a cursor are those of the text after it. */
  lemma SegmentsSuffix(s: Text, k: nat)
    requires k <= |s|
    ensures SegmentsFrom(s, k) == Segments(s[k..])
  {
    SegmentsShift(s, k, k);
  }

  /** A spelled label ended by a separator at the very start comes first. */
  lemma SpelledFirst(t: Text, raw: Text, rest: Text, R: seq<Text>)
    requires Spells(t, 0, raw, |t|) && |raw| < LabelMax
    requires SegmentsFrom(t + Dot + rest, |t| + 1) == Ok(R)
    ensures SegmentsFrom(t + Dot + rest, 0) == Ok([raw] + R)
  {
    var s := t + Dot + rest;
    assert ReadLabel(s, 0, LabelMax) == Ok(Cut(raw, |t| + 1, true)) by {
      assert [] + t + (Dot + rest) == s;
      WholeSpells([], t, Dot + rest, raw);
      SpelledSeparated(s, 0, raw, |t|, LabelMax);
    }
    SegmentsStep(s, 0, raw, |t| + 1, R);
  }

  /** A label spelled from `pos` to the end of the text is the last piece. */
  lemma SegmentsSpelledLast(s: Text, pos: nat, raw: Text)
    requires pos <= |s| && Spells(s, pos, raw, |s|) && |raw| < LabelMax
    ensures SegmentsFrom(s, pos) == Ok([raw])
  {
    SpelledLabel(s, pos, raw, |s|, LabelMax);
  }

  /** A separator appended to a name adds one empty last piece. */
  lemma {:induction false} SegmentsAppendDot(s: Text, pos: nat)
    requires pos <= |s| && SegmentsFrom(s, pos).Ok?
    ensures SegmentsFrom(s + Dot, pos) == Ok(SegmentsFrom(s, pos).value + [[]])
    decreases |s| - pos
  {
    var t := s + Dot;
    ReadAppendDot(s, pos, LabelMax, []);
    var c := ReadLabel(s, pos, LabelMax).value;
    if c.atSeparator {
      SegmentsAppendDot(s, c.next);
      var rest := SegmentsFrom(s, c.next).value;
      SegmentsStep(t, pos, c.bytes, c.next, rest + [[]]);
      assert [c.bytes] + (rest + [[]]) == [c.bytes] + rest + [[]];
    } else {
      assert SegmentsFrom(t, |s| + 1) == Ok([[]]);
      SegmentsStep(t, pos, c.bytes, |s| + 1, [[]]);
    }
  }

  /** A separator put in front of a name adds one empty first piece. */
  lemma SegmentsDotPrefix(s: Text)
    ensures Segments(Dot + s) == if Segments(s).Ok? then Ok([[]] + Segments(s).value) else Segments(s)
  {
    var t := Dot + s;
    assert ReadLabel(t, 0, LabelMax) == Ok(Cut([], 1, true));
    SegmentsShift(t, 1, 1);
    assert t[1..] == s;
  }

  /** Only the empty text is the single empty piece. */
  lemma EmptyPieces(s: Text)
    requires Segments(s) == Ok([[]])
    ensures s == []
  {
    var c := ReadLabel(s, 0, LabelMax).value;
    assert !c.atSeparator;
  }

  /** Only "." is two empty pieces. */
  lemma RootPieces(s: Text)
    requires Segments(s) == Ok([[], []])
    ensures s == "."
  {
    var c := ReadLabel(s, 0, LabelMax).value;
    assert c.atSeparator;
    var rest := SegmentsFrom(s, c.next).value;
    assert [c.bytes] + rest == [[], []];
    assert rest == ([c.bytes] + rest)[1..];
    assert c.bytes == ([c.bytes] + rest)[0] == [];
    assert c.next == 1;
    var d := ReadLabel(s, 1, LabelMax).value;
    assert !d.atSeparator;
  }

  /** Whether the pieces end with the empty piece a final separator leaves. */
  predicate Rooted(segs: seq<Text>) {
    |segs| > 1 && Last(segs) == []
  }

  /** The pieces without the empty one a final separator leaves. */
  function Body(segs: seq<Text>): (b: seq<Text>)
    requires |segs| >= 1
    ensures |b| >= 1 && b <= segs
  {
    if Rooted(segs) then segs[..|segs| - 1] else segs
  }

  /**
   * The labels of a name as the library's label loop sees them: it stops at
   * the end of the text, so a final separator adds no label ("x." and "x"
   * have the same labels, "" and "." the single empty label).
   */
  function NameLabels(s: Text): (r: Result<seq<Text>>)
    ensures r.Ok? ==> |r.value| >= 1
  {
    var segs :- Segments(s);
    Ok(Body(segs))
  }

  /**
   * The canonical text of a name: every label unescaped and escaped again,
   * joined by dots, a final separator kept; "" becomes ".". It fails with the
   * codec's error on a bad label and with NameTooLong when the result and its
   * NUL do not fit `size` bytes.
   */
  function Normalize(s: Text, size: nat): (r: Result<Text>)
    ensures r.Ok? ==> |r.value| < size && Segments(s).Ok?
    ensures r.Err? ==> r.error == NameTooLong || (Segments(s).Err? && r.error == Segments(s).error)
  {
    var segs :- Segments(s);
    var t: Text := if segs == [[]] then "." else JoinEscaped(segs);
    if |t| >= size then Err(NameTooLong) else Ok(t)
  }

  /** Normalizing keeps the labels of the name. */
  lemma NormalizeKeepsLabels(s: Text, size: nat)
    requires Normalize(s, size).Ok?
    ensures NameLabels(Normalize(s, size).value) == NameLabels(s)
  {
    var segs := Segments(s).value;
    if segs == [[]] {
      SegmentsOfCanonical([[], []]);
      assert JoinEscaped([[], []]) == ".";
    } else {
      SegmentsOfCanonical(segs);
    }
  }

  /** A normalized name is its own normal form. */
  lemma NormalizeIdempotent(s: Text, size: nat)
    requires Normalize(s, size).Ok?
    ensures Normalize(Normalize(s, size).value, size) == Normalize(s, size)
  {
    var segs := Segments(s).value;
    if segs == [[]] {
      SegmentsOfCanonical([[], []]);
      assert JoinEscaped([[], []]) == ".";
    } else {
      SegmentsOfCanonical(segs);
    }
  }

  /** The canonical spelling of labels other than the root is its own normal form. */
  lemma NormalizeCanonical(L: seq<Text>, size: nat)
    requires |L| >= 1 && L != [[]] && forall i :: 0 <= i < |L| ==> |L[i]| < LabelMax
    requires |JoinEscaped(L)| < size
    ensures Normalize(JoinEscaped(L), size) == Ok(JoinEscaped(L))
  {
    SegmentsOfCanonical(L);
  }

  /** Normalizing a non-empty name keeps its pieces, the empty one a final
      separator leaves included: the final dot is kept exactly when there was one. */
  lemma NormalizeKeepsPieces(s: Text, size: nat)
    requires s != [] && Normalize(s, size).Ok?
    ensures Segments(Normalize(s, size).value) == Segments(s)
  {
    var segs := Segments(s).value;
    if segs == [[]] {
      EmptyPieces(s);
      assert false;
    }
    SegmentsOfCanonical(segs);
  }

  /** A final separator on a name that has none adds no label. */
  lemma NameLabelsAppendDot(s: Text)
    requires Segments(s).Ok? && !Rooted(Segments(s).value)
    ensures NameLabels(s + Dot) == NameLabels(s)
  {
    SegmentsAppendDot(s, 0);
    var segs := Segments(s).value;
    assert Last(segs + [[]]) == [];
    assert (segs + [[]])[..|segs|] == segs;
  }

  /** The empty name and "." both normalize, to ".". */
  lemma NormalizeRoot(size: nat)
    requires size >= 2
    ensures Normalize("", size) == Ok(".") && Normalize(".", size) == Ok(".")
  {
    SegmentsOfCanonical([[]]);
    SegmentsOfCanonical([[], []]);
    assert JoinEscaped([[]]) == "";
    assert JoinEscaped([[], []]) == ".";
  }

  /** Labels pairwise equal up to ASCII case, with no label left over. */
  predicate LabelsEqual(a: seq<Text>, b: seq<Text>) {
    |a| == |b| && forall i :: 0 <= i < |a| ==> SameFolded(a[i], b[i])
  }

  /** Name equality, defined on names that split into labels without error. */
  predicate DomainEqual(a: Text, b: Text)
    requires NameLabels(a).Ok? && NameLabels(b).Ok?
    ensures DomainEqual(a, b) ==> |NameLabels(a).value| == |NameLabels(b).value|
    ensures NameLabels(a) == NameLabels(b) ==> DomainEqual(a, b)
  {
    LabelsEqual(NameLabels(a).value, NameLabels(b).value)
  }

  function FoldAll(L: seq<Text>): (f: seq<Text>)
    ensures |f| == |L| && forall i :: 0 <= i < |L| ==> f[i] == Fold(L[i])
  {
    seq(|L|, i requires 0 <= i < |L| => Fold(L[i]))
  }

  /** What equality and hashing look at: the case-folded raw labels. */
  function Key(s: Text): seq<Text>
    requires NameLabels(s).Ok?
  {
    FoldAll(NameLabels(s).value)
  }

  /** Two names are equal exactly when their keys are. */
  lemma EqualIffSameKey(a: Text, b: Text)
    requires NameLabels(a).Ok? && NameLabels(b).Ok?
    ensures DomainEqual(a, b) <==> Key(a) == Key(b)
  {
    var ka, kb := Key(a), Key(b);
    if ka == kb {
      assert forall i :: 0 <= i < |ka| ==> ka[i] == kb[i];
    }
  }

  lemma EqualReflexive(a: Text)
    requires NameLabels(a).Ok?
    ensures DomainEqual(a, a)
  {
    EqualIffSameKey(a, a);
  }

  lemma EqualSymmetric(a: Text, b: Text)
    requires NameLabels(a).Ok? && NameLabels(b).Ok?
    ensures DomainEqual(a, b) ==> DomainEqual(b, a)
  {
    EqualIffSameKey(a, b);
    EqualIffSameKey(b, a);
  }

  lemma EqualTransitive(a: Text, b: Text, c: Text)
    requires NameLabels(a).Ok? && NameLabels(b).Ok? && NameLabels(c).Ok?
    ensures DomainEqual(a, b) && DomainEqual(b, c) ==> DomainEqual(a, c)
  {
    EqualIffSameKey(a, b);
    EqualIffSameKey(b, c);
    EqualIffSameKey(a, c);
  }

  /** A name equals its normal form. */
  lemma NormalizeEqual(s: Text, size: nat)
    requires Normalize(s, size).Ok?
    ensures NameLabels(s).Ok? && NameLabels(Normalize(s, size).value).Ok?
    ensures DomainEqual(s, Normalize(s, size).value)
  {
    NormalizeKeepsLabels(s, size);
    EqualReflexive(s);
  }

  /** A name equals itself with a final dot added. */
  lemma EqualIgnoresFinalDot(s: Text)
    requires Segments(s).Ok? && !Rooted(Segments(s).value)
    ensures NameLabels(s).Ok? && NameLabels(s + Dot).Ok?
    ensures DomainEqual(s, s + Dot)
  {
    NameLabelsAppendDot(s);
    EqualReflexive(s);
  }

  /** An unsigned 32-bit hash value. */
  type Hash32 = x: int | 0 <= x < 0x1_0000_0000

  /** Feeds the bytes of a label to the hash step. */
  function HashBytes(step: (Hash32, Octet) -> Hash32, h: Hash32, l: Text): Hash32
    decreases |l|
  {
    if l == [] then h else HashBytes(step, step(h, l[0]), l[1..])
  }

  function HashLabels(step: (Hash32, Octet) -> Hash32, h: Hash32, L: seq<Text>): Hash32
    decreases |L|
  {
    if L == [] then h else HashLabels(step, HashBytes(step, h, L[0]), L[1..])
  }

  /**
   * The hash of a name: the case-folded raw bytes, label by label, fed to a
   * hash step that starts from 0. The step itself is a parameter.
   */
  function DomainHash(step: (Hash32, Octet) -> Hash32, s: Text): (h: Hash32)
    requires NameLabels(s).Ok?
    ensures NameLabels(s).value == [[]] ==> h == 0
  {
    var key := Key(s);
    assert NameLabels(s).value == [[]] ==> key == [[]] && HashLabels(step, 0, key) == HashBytes(step, 0, []);
    HashLabels(step, 0, key)
  }

  /** Equal names hash equal, whatever the step. */
  lemma HashAgreesWithEqual(step: (Hash32, Octet) -> Hash32, a: Text, b: Text)
    requires NameLabels(a).Ok? && NameLabels(b).Ok? && DomainEqual(a, b)
    ensures DomainHash(step, a) == DomainHash(step, b)
  {
    EqualIffSameKey(a, b);
  }
}
