/**
 * Bytes, texts and error kinds shared by the domain-name library.
 *
 * Names are C strings in the library; here a text is a sequence of octets,
 * each octet a character whose code is below 256. Octets outside printable
 * ASCII are opaque: nothing interprets them as a character set.
 */
module Octets {

  type Octet = c: char | c as int < 256
  type Text = seq<Octet>

  /** Raw capacity of a label buffer: 63 bytes plus the terminating NUL (RFC 1035, section 2.3.4). */
  const LabelMax: nat := 64

  const NUL: Octet := 0 as char

  /** The label separator, as a one-octet text. */
  const Dot: Text := ['.']

  /** The failures the codec and the composer report. */
  datatype Error =
    | MalformedEscape   // a `\` that does not start a valid escape
    | LabelTooLong      // a raw label that does not fit its buffer
    | BufferTooSmall    // an output buffer that cannot hold the result
    | NameTooLong       // a normalized name that does not fit its buffer
    | TruncatedName     // fewer labels than a service name needs

  datatype Option<+T> = None | Some(value: T)

  datatype Result<+T> = Ok(value: T) | Err(error: Error) {
    predicate IsFailure() { Err? }
    function PropagateFailure<U>(): Result<U> requires Err? { Err(error) }
    function Extract(): T requires Ok? { value }
  }

  predicate IsDigit(c: Octet) { '0' <= c <= '9' }

  function DigitValue(c: Octet): (d: nat)
    requires IsDigit(c)
    ensures d < 10
  {
    c as int - '0' as int
  }

  function DigitChar(d: nat): (c: Octet)
    requires d < 10
    ensures IsDigit(c) && DigitValue(c) == d
  {
    ('0' as int + d) as char
  }

  /** ASCII lower-casing; every other octet is left as it is. */
  function Lower(c: Octet): (l: Octet)
    ensures 'A' <= c <= 'Z' ==> l as int == c as int + 32
    ensures !('A' <= c <= 'Z') ==> l == c
    ensures !('A' <= l <= 'Z')
  {
    if 'A' <= c <= 'Z' then (c as int + 32) as char else c
  }

  /** A label with every ASCII letter folded to lower case. */
  function Fold(l: Text): (f: Text)
    ensures |f| == |l|
    ensures forall i :: 0 <= i < |l| ==> f[i] == Lower(l[i])
  {
    seq(|l|, i requires 0 <= i < |l| => Lower(l[i]))
  }

  /** Folding leaves no upper-case letter, so folding twice is folding once,
      and every label is equal up to case to its folding. */
  lemma FoldIdempotent(l: Text)
    ensures forall i :: 0 <= i < |l| ==> !('A' <= Fold(l)[i] <= 'Z')
    ensures Fold(Fold(l)) == Fold(l)
    ensures SameFolded(l, Fold(l))
  {
    var f := Fold(l);
    assert forall i :: 0 <= i < |f| ==> Fold(f)[i] == Lower(f[i]) == f[i];
  }

  /** Case-insensitive equality of two labels. */
  predicate SameFolded(a: Text, b: Text) {
    Fold(a) == Fold(b)
  }

  /** Two labels are equal up to case exactly when they agree octet by octet after lower-casing. */
  lemma SameFoldedAt(a: Text, b: Text)
    ensures SameFolded(a, b) <==> |a| == |b| && forall i :: 0 <= i < |a| ==> Lower(a[i]) == Lower(b[i])
  {
    if |a| == |b| && forall i :: 0 <= i < |a| ==> Lower(a[i]) == Lower(b[i]) {
      assert forall i :: 0 <= i < |a| ==> Fold(a)[i] == Fold(b)[i];
    }
    if SameFolded(a, b) {
      assert forall i :: 0 <= i < |a| ==> Fold(a)[i] == Fold(b)[i];
    }
  }

  lemma Associative<T>(a: seq<T>, b: seq<T>, c: seq<T>)
    ensures a + (b + c) == (a + b) + c
  {
  }

  /** Last element of a non-empty sequence. */
  function Last<T>(s: seq<T>): T
    requires |s| > 0
  {
    s[|s| - 1]
  }
}
