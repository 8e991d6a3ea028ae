/**
 * The domain classifier (avahi_assess_domain_name): the roles a textual name
 * can play under the DNS-SD naming layout of RFC 6763, section 4.1
 * (`<instance>.<_service>.<_tcp|_udp>.<domain>`) and the `_sub` subtypes of
 * section 7.1.
 */
module Assess {
  import opened Octets
  import opened Codec
  import opened Names
  import opened Validate

  datatype Role = ServiceName | ServiceSubtype | ServiceType | DomainName | DomainRoot

  /** Either a name is invalid, or it plays a set of roles. */
  datatype Assessment = Invalid | Roles(roles: set<Role>)

  /**
   * A service layout at the front of the label list: whether an instance
   * label comes first, and whether a `<_subtype>._sub` pair precedes the
   * `<_service>.<protocol>` pair.
   */
  datatype Layout = Layout(instance: bool, subtype: bool) {
    /** Index of the first underscored label (the subtype, else the service). */
    function First(): nat {
      if instance then 1 else 0
    }

    /** Index of the protocol label. */
    function ProtocolAt(): nat {
      First() + (if subtype then 3 else 1)
    }

    function ServiceRoles(): set<Role> {
      {ServiceType} + (if subtype then {ServiceSubtype} else {}) + (if instance then {ServiceName} else {})
    }
  }

  /** The layouts in the order they are tried. */
  const Rules: seq<Layout> := [Layout(false, true), Layout(false, false), Layout(true, true), Layout(true, false)]

  /** The protocol marker, and for a subtype the `_sub` marker, sit where the layout puts them. */
  predicate Recognizes(r: Layout, L: seq<Text>) {
    r.ProtocolAt() < |L| && IsProtocol(L[r.ProtocolAt()]) && (r.subtype ==> IsSubMarker(L[r.First() + 1]))
  }

  /** The labels the layout wants to start with `_` do. */
  predicate WellFormed(r: Layout, L: seq<Text>)
    requires Recognizes(r, L)
  {
    Underscored(L[r.First()]) && (r.subtype ==> Underscored(L[r.First() + 2]))
  }

  /** What a recognized layout makes of the labels: its service roles and,
      when labels follow the protocol, DomainName; or Invalid when a label
      it needs underscored is not. */
  function Outcome(r: Layout, L: seq<Text>): Assessment
    requires Recognizes(r, L)
  {
    if !WellFormed(r, L) then Invalid
    else Roles(r.ServiceRoles() + (if |L| > r.ProtocolAt() + 1 then {DomainName} else {}))
  }

  /** The first layout that recognizes the labels decides; without one the
      labels are an ordinary domain name. */
  function Match(L: seq<Text>, rules: seq<Layout>): Assessment
    decreases |rules|
  {
    if rules == [] then Roles({DomainName})
    else if Recognizes(rules[0], L) then Outcome(rules[0], L)
    else Match(L, rules[1..])
  }

  /** The labels the layouts are matched against: the pieces without the
      empty one a final separator leaves, and without one leading empty label. */
  function Stripped(segs: seq<Text>): seq<Text>
    requires |segs| >= 1
  {
    var body := Body(segs);
    if body[0] == [] then body[1..] else body
  }

  /** Adds DomainRoot to a valid assessment when the name is rooted. */
  function WithRoot(a: Assessment, rooted: bool): Assessment {
    if a.Roles? && rooted then Roles(a.roles + {DomainRoot}) else a
  }

  /**
   * The roles of the pieces of a name: Invalid for an empty label other
   * than a single leading one, or for a recognized protocol whose sibling
   * labels lack their `_`.
   */
  function Classify(segs: seq<Text>): (a: Assessment)
    requires |segs| >= 1
    ensures a.Roles? ==> a.roles != {}
  {
    var L := Stripped(segs);
    if [] in L then Invalid
    else if L == [] then Roles({DomainRoot})
    else
      MatchRoles(L, Rules);
      WithRoot(Match(L, Rules), Rooted(segs))
  }

  /** The roles of a name; an absent name or a bad label is Invalid, and a
      valid name always plays at least one role. */
  function AssessDomainName(name: Option<Text>): (a: Assessment)
    ensures name.None? ==> a == Invalid
    ensures name.Some? && Segments(name.value).Err? ==> a == Invalid
    ensures a.Roles? ==> a.roles != {}
  {
    if name.None? then Invalid
    else match Segments(name.value)
      case Err(_) => Invalid
      case Ok(segs) => Classify(segs)
  }

  /** A name written as bare labels joined by dots is classified on those labels. */
  lemma AssessBare(L: seq<Text>)
    requires |L| >= 1 && forall l :: l in L ==> Bare(l) && |l| < LabelMax
    ensures AssessDomainName(Some(Dotted(L))) == Classify(L)
  {
    SegmentsOfBare(L);
  }

  /** The first layout that recognizes the labels decides the match. */
  lemma {:induction false} MatchFirst(L: seq<Text>, rules: seq<Layout>, i: nat)
    requires i < |rules| && Recognizes(rules[i], L)
    requires forall j :: 0 <= j < i ==> !Recognizes(rules[j], L)
    ensures Match(L, rules) == Outcome(rules[i], L)
    decreases i
  {
    if i > 0 {
      assert !Recognizes(rules[0], L);
      MatchFirst(L, rules[1..], i - 1);
    }
  }

  /**
   * The roles a well-formed layout gives: always ServiceType, ServiceName
   * exactly when it has an instance label, ServiceSubtype exactly when it has
   * a subtype pair, DomainName exactly when labels follow the protocol.
   */
  lemma OutcomeRoles(r: Layout, L: seq<Text>)
    requires Recognizes(r, L) && WellFormed(r, L)
    ensures Outcome(r, L).Roles? && ServiceType in Outcome(r, L).roles
    ensures ServiceName in Outcome(r, L).roles <==> r.instance
    ensures ServiceSubtype in Outcome(r, L).roles <==> r.subtype
    ensures DomainName in Outcome(r, L).roles <==> |L| > r.ProtocolAt() + 1
    ensures DomainRoot !in Outcome(r, L).roles
  {
  }

  /** A successful match always names a service type or a domain name, and
      never the root. */
  lemma {:induction false} MatchRoles(L: seq<Text>, rules: seq<Layout>)
    ensures Match(L, rules).Roles? ==> DomainRoot !in Match(L, rules).roles
    ensures Match(L, rules).Roles? ==> ServiceType in Match(L, rules).roles || DomainName in Match(L, rules).roles
    decreases |rules|
  {
    if rules != [] && !Recognizes(rules[0], L) {
      MatchRoles(L, rules[1..]);
    }
  }

  /**
   * Unknown protocols degrade: the labels are a plain domain name exactly
   * when no layout finds its protocol marker where it expects one. Once one
   * does, the result is a service role set or Invalid, never the fallback.
   */
  lemma {:induction false} MatchFallback(L: seq<Text>, rules: seq<Layout>)
    ensures (forall j :: 0 <= j < |rules| ==> !Recognizes(rules[j], L)) <==> Match(L, rules) == Roles({DomainName})
    decreases |rules|
  {
    if rules != [] {
      if Recognizes(rules[0], L) {
        assert Outcome(rules[0], L).Roles? ==> ServiceType in Outcome(rules[0], L).roles;
      } else {
        MatchFallback(L, rules[1..]);
        assert forall j :: 1 <= j < |rules| ==> rules[j] == rules[1..][j - 1];
      }
    }
  }

  /** Only "" and "." are nothing but the root. */
  lemma RootOnly(s: Text)
    ensures AssessDomainName(Some(s)) == Roles({DomainRoot}) <==> s == [] || s == "."
  {
    if s == [] {
      SegmentsOfBare([[]]);
    } else if s == "." {
      SegmentsOfBare([[], []]);
      assert Dotted([[], []]) == ".";
    } else if Segments(s).Ok? {
      var segs := Segments(s).value;
      var L := Stripped(segs);
      if L == [] {
        assert Body(segs) == [[]];
        if Rooted(segs) {
          assert segs == segs[..|segs| - 1] + [Last(segs)];
          assert segs == [[], []];
          RootPieces(s);
        } else {
          EmptyPieces(s);
        }
      } else if [] !in L {
        MatchRoles(L, Rules);
      }
    }
  }

  /** An empty label after the first, other than the one a final separator
      leaves, makes the name Invalid. */
  lemma EmptyLabelInvalid(s: Text, i: nat)
    requires Segments(s).Ok? && 0 < i < |Body(Segments(s).value)| && Body(Segments(s).value)[i] == []
    ensures AssessDomainName(Some(s)) == Invalid
  {
    var body := Body(Segments(s).value);
    if body[0] == [] {
      assert body[1..][i - 1] == [];
    } else {
      assert body[i] in body;
    }
  }

  /** A single separator in front of a name that does not itself start with
      an empty label changes nothing. */
  lemma LeadingDotIgnored(s: Text)
    requires Segments(s).Ok? ==> Segments(s).value[0] != []
    ensures AssessDomainName(Some(Dot + s)) == AssessDomainName(Some(s))
  {
    SegmentsDotPrefix(s);
    if Segments(s).Ok? {
      var segs := Segments(s).value;
      var segs' := [[]] + segs;
      assert Last(segs') == Last(segs);
      assert Rooted(segs') == Rooted(segs);
      if Rooted(segs) {
        assert segs'[..|segs'| - 1] == [[]] + segs[..|segs| - 1];
      }
      assert Body(segs') == [[]] + Body(segs);
      assert Stripped(segs') == Body(segs) == Stripped(segs);
    }
  }

  /** A separator at the end of a name that has none adds DomainRoot and
      changes nothing else. */
  lemma TrailingDotAddsRoot(s: Text)
    requires Segments(s).Ok? && !Rooted(Segments(s).value)
    ensures AssessDomainName(Some(s + Dot)) == WithRoot(AssessDomainName(Some(s)), true)
  {
    var segs := Segments(s).value;
    SegmentsAppendDot(s, 0);
    var segs' := segs + [[]];
    assert Rooted(segs') && Body(segs') == segs;
  }

  /** A valid name is a root domain exactly when it is "" or ends with an
      unescaped separator. */
  lemma DomainRootIff(s: Text)
    requires AssessDomainName(Some(s)).Roles?
    ensures DomainRoot in AssessDomainName(Some(s)).roles <==> s == [] || Rooted(Segments(s).value)
  {
    var segs := Segments(s).value;
    var L := Stripped(segs);
    if L == [] {
      assert Body(segs) == [[]];
      if !Rooted(segs) {
        EmptyPieces(s);
      }
    } else {
      MatchRoles(L, Rules);
      if s == [] {
        SegmentsOfBare([[]]);
      }
    }
  }
}
