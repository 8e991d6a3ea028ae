/**
 * The validity predicates of the library (avahi_is_valid_host_name,
 * avahi_is_valid_domain_name, avahi_is_valid_fqdn, the service-type and
 * subtype checks) and avahi_get_type_from_subtype. None of them faults on a
 * malformed name: a bad escape or an over-long label only makes them false.
 */
module Validate {
  import opened Octets
  import opened Codec
  import opened Names

  /** `_tcp` or `_udp`, in any ASCII case: the protocols of RFC 6763, section 7. */
  predicate IsProtocol(l: Text) {
    |l| == 4 && l[0] == '_' && Lower(l[3]) == 'p' &&
    ((Lower(l[1]) == 't' && Lower(l[2]) == 'c') || (Lower(l[1]) == 'u' && Lower(l[2]) == 'd'))
  }

  /** `_sub`, in any ASCII case: the subtype marker of RFC 6763, section 7.1. */
  predicate IsSubMarker(l: Text) {
    |l| == 4 && l[0] == '_' && Lower(l[1]) == 's' && Lower(l[2]) == 'u' && Lower(l[3]) == 'b'
  }

  /** The markers are exactly the labels that fold to `_tcp`, `_udp` and `_sub`. */
  lemma MarkersFold(l: Text)
    ensures IsProtocol(l) <==> Fold(l) == "_tcp" || Fold(l) == "_udp"
    ensures IsSubMarker(l) <==> Fold(l) == "_sub"
  {
    var f := Fold(l);
    if |l| == 4 {
      assert f == [Lower(l[0]), Lower(l[1]), Lower(l[2]), Lower(l[3])];
      assert Lower(l[0]) == '_' <==> l[0] == '_';
    }
  }

  predicate Underscored(l: Text) {
    |l| > 0 && l[0] == '_'
  }

  /** Exactly one non-empty label, with no separator after it. */
  predicate HostLabels(segs: seq<Text>) {
    |segs| == 1 && segs[0] != []
  }

  predicate IsValidHostName(s: Text) {
    Segments(s).Ok? && HostLabels(Segments(s).value)
  }

  /**
   * Labels joined by single separators, with at most one separator at the
   * end; "" and "." (the root) are valid, an empty label anywhere else is not.
   */
  predicate DomainLabels(segs: seq<Text>)
    requires |segs| >= 1
  {
    Body(segs) == [[]] || [] !in Body(segs)
  }

  predicate IsValidDomainName(s: Text) {
    Segments(s).Ok? && DomainLabels(Segments(s).value)
  }

  /** A label of decimal digits only. */
  predicate IsNumeric(l: Text) {
    |l| > 0 && forall c :: c in l ==> IsDigit(c)
  }

  /** At least two labels, and not the four numeric labels of an IPv4 dotted quad. */
  predicate FqdnLabels(segs: seq<Text>)
    requires |segs| >= 1
  {
    var L := Body(segs);
    DomainLabels(segs) && |L| >= 2 && !(|L| == 4 && forall l :: l in L ==> IsNumeric(l))
  }

  /** A valid domain name of at least two labels that is not an IPv4
      dotted quad and holds no `:` (no IPv6 literal). */
  predicate IsValidFqdn(s: Text) {
    Segments(s).Ok? && FqdnLabels(Segments(s).value) && ':' !in s
  }

  /** Two or more labels, each starting with `_`. */
  predicate GenericLabels(L: seq<Text>) {
    |L| >= 2 && forall l :: l in L ==> Underscored(l)
  }

  predicate IsValidServiceTypeGeneric(s: Text) {
    NameLabels(s).Ok? && GenericLabels(NameLabels(s).value)
  }

  /** `_service._tcp` or `_service._udp`. */
  predicate StrictLabels(L: seq<Text>) {
    |L| == 2 && Underscored(L[0]) && IsProtocol(L[1])
  }

  predicate IsValidServiceTypeStrict(s: Text) {
    NameLabels(s).Ok? && StrictLabels(NameLabels(s).value)
  }

  /** `_subtype._sub._service._tcp` (or `._udp`). */
  predicate SubtypeLabels(L: seq<Text>) {
    |L| == 4 && Underscored(L[0]) && IsSubMarker(L[1]) && Underscored(L[2]) && IsProtocol(L[3])
  }

  predicate IsValidServiceSubtype(s: Text) {
    NameLabels(s).Ok? && SubtypeLabels(NameLabels(s).value)
  }

  /**
   * The service type a subtype belongs to: the text after the cursor has
   * passed the first two labels. Nothing for a name that is not a subtype.
   */
  function GetTypeFromSubtype(s: Text): (r: Option<Text>)
    ensures r.Some? <==> IsValidServiceSubtype(s)
  {
    if !IsValidServiceSubtype(s) then None
    else
      SegmentsUncons(s, 0);
      var a := ReadLabel(s, 0, LabelMax).value;
      SegmentsUncons(s, a.next);
      var b := ReadLabel(s, a.next, LabelMax).value;
      Some(s[b.next..])
  }

  /** For a subtype written with bare labels, the type is its last two labels as written. */
  lemma TypeOfBareSubtype(L: seq<Text>)
    requires SubtypeLabels(L) && forall l :: l in L ==> Bare(l) && |l| < LabelMax
    ensures GetTypeFromSubtype(Dotted(L)) == Some(Dotted(L[2..]))
  {
    SegmentsOfBare(L);
    assert NameLabels(Dotted(L)) == Ok(L);
    assert L[0] in L && L[1] in L;
    FirstTwoBare(L);
  }

  /** The cursor passes the first two bare labels of a name and their separators. */
  lemma FirstTwoBare(L: seq<Text>)
    requires |L| >= 3 && Bare(L[0]) && Bare(L[1]) && |L[0]| < LabelMax && |L[1]| < LabelMax
    ensures var s, n := Dotted(L), |L[0]| + 1;
            ReadLabel(s, 0, LabelMax) == Ok(Cut(L[0], n, true)) &&
            ReadLabel(s, n, LabelMax) == Ok(Cut(L[1], n + |L[1]| + 1, true)) &&
            s[n + |L[1]| + 1..] == Dotted(L[2..])
  {
    var a, b, t := L[0], L[1], Dotted(L[2..]);
    var s := Dotted(L);
    assert L[1..][0] == b && L[1..][1..] == L[2..];
    assert Dotted(L[1..]) == b + Dot + t;
    assert s == a + Dot + Dotted(L[1..]);
    Associative(b, Dot, t);
    Associative(a, Dot, b + (Dot + t));
    assert s == [] + a + (Dot + (b + (Dot + t)));
    BareRoundTrip([], a, Dot + (b + (Dot + t)), LabelMax);
    Associative(a + Dot, b, Dot + t);
    assert s == (a + Dot) + b + (Dot + t);
    BareRoundTrip(a + Dot, b, Dot + t, LabelMax);
    assert s[|a| + 1 + |b| + 1..] == t;
  }

  /** The type of a subtype is its last two labels, and is a strict service type. */
  lemma TypeFromSubtype(s: Text)
    requires IsValidServiceSubtype(s)
    ensures var t := GetTypeFromSubtype(s).value;
            NameLabels(t) == Ok(NameLabels(s).value[2..]) && IsValidServiceTypeStrict(t)
  {
    var segs := Segments(s).value;
    SegmentsUncons(s, 0);
    var a := ReadLabel(s, 0, LabelMax).value;
    SegmentsUncons(s, a.next);
    var b := ReadLabel(s, a.next, LabelMax).value;
    assert segs[1..][1..] == segs[2..];
    SegmentsShift(s, b.next, b.next);
    assert Segments(s[b.next..]) == Ok(segs[2..]);
    if Rooted(segs) {
      assert segs[2..][..|segs| - 3] == segs[..|segs| - 1][2..];
    }
  }

  /** A strict service type passes the generic check. */
  lemma StrictIsGeneric(s: Text)
    requires IsValidServiceTypeStrict(s)
    ensures IsValidServiceTypeGeneric(s)
  {
    var L := NameLabels(s).value;
    assert forall l :: l in L ==> l == L[0] || l == L[1];
  }

  /** A service subtype passes the generic check. */
  lemma SubtypeIsGeneric(s: Text)
    requires IsValidServiceSubtype(s)
    ensures IsValidServiceTypeGeneric(s)
  {
    var L := NameLabels(s).value;
    assert forall l :: l in L ==> l == L[0] || l == L[1] || l == L[2] || l == L[3];
  }

  /** A host name is a domain name, but never a fully qualified one. */
  lemma HostIsDomain(s: Text)
    requires IsValidHostName(s)
    ensures IsValidDomainName(s) && !IsValidFqdn(s)
  {
  }

  /**
   * One separator may end a domain name: appending a separator to a name
   * that is not the single empty label keeps it valid exactly when it was
   * valid and did not already end with a separator.
   */
  lemma DomainTrailingDot(s: Text)
    requires Segments(s).Ok? && Segments(s).value != [[]]
    ensures IsValidDomainName(s + Dot) <==> IsValidDomainName(s) && !Rooted(Segments(s).value)
  {
    var segs := Segments(s).value;
    SegmentsAppendDot(s, 0);
    var segs' := segs + [[]];
    assert Rooted(segs') && Body(segs') == segs;
    if [] !in segs {
      assert Last(segs) in segs;
    }
  }
}
