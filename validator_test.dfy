/**
 * The validator assertions of the library's domain test: service types and
 * subtypes, host names, domain names and fully qualified domain names. Each
 * name is written with bare labels, so its pieces are those labels
 * (Names.SegmentsOfBare); the helper lemmas evaluate the checks on them.
 */
module ValidatorTest {
  import opened Octets
  import opened Codec
  import opened Names
  import opened Validate

  lemma TypeFooBarWaldoSpelling()
    ensures Dotted(["_foo", "_bar", "_waldo"]) == "_foo._bar._waldo"
  {
  }

  lemma TypeFooBarWaldoFacts()
    ensures GenericLabels(Body(["_foo", "_bar", "_waldo"]))
    ensures !StrictLabels(Body(["_foo", "_bar", "_waldo"]))
    ensures !SubtypeLabels(Body(["_foo", "_bar", "_waldo"]))
  {
  }

  lemma TypeFooBarWaldo()
    ensures IsValidServiceTypeGeneric("_foo._bar._waldo")
    ensures !IsValidServiceTypeStrict("_foo._bar._waldo")
    ensures !IsValidServiceSubtype("_foo._bar._waldo")
  {
    SegmentsOfBare(["_foo", "_bar", "_waldo"]);
    TypeFooBarWaldoSpelling();
    TypeFooBarWaldoFacts();
  }

  lemma TypeFooTcpFacts()
    ensures Dotted(["_foo", "_tcp"]) == "_foo._tcp"
    ensures GenericLabels(Body(["_foo", "_tcp"]))
    ensures StrictLabels(Body(["_foo", "_tcp"]))
    ensures !SubtypeLabels(Body(["_foo", "_tcp"]))
  {
  }

  lemma TypeFooTcp()
    ensures IsValidServiceTypeGeneric("_foo._tcp")
    ensures IsValidServiceTypeStrict("_foo._tcp")
    ensures !IsValidServiceSubtype("_foo._tcp")
  {
    SegmentsOfBare(["_foo", "_tcp"]);
    TypeFooTcpFacts();
  }

  lemma TypeFooBarPlainWaldoSpelling()
    ensures Dotted(["_foo", "_bar", "waldo"]) == "_foo._bar.waldo"
  {
  }

  lemma TypeFooBarPlainWaldoFacts()
    ensures !GenericLabels(Body(["_foo", "_bar", "waldo"]))
    ensures !StrictLabels(Body(["_foo", "_bar", "waldo"]))
    ensures !SubtypeLabels(Body(["_foo", "_bar", "waldo"]))
  {
    assert Body(["_foo", "_bar", "waldo"]) == ["_foo", "_bar", "waldo"];
    assert "waldo" in ["_foo", "_bar", "waldo"] && !Underscored("waldo");
  }

  lemma TypeFooBarPlainWaldo()
    ensures !IsValidServiceTypeGeneric("_foo._bar.waldo")
    ensures !IsValidServiceTypeStrict("_foo._bar.waldo")
    ensures !IsValidServiceSubtype("_foo._bar.waldo")
  {
    SegmentsOfBare(["_foo", "_bar", "waldo"]);
    TypeFooBarPlainWaldoSpelling();
    TypeFooBarPlainWaldoFacts();
  }

  lemma TypeEmptyFacts()
    ensures Dotted([""]) == ""
    ensures !GenericLabels(Body([""]))
    ensures !StrictLabels(Body([""]))
    ensures !SubtypeLabels(Body([""]))
  {
  }

  lemma TypeEmpty()
    ensures !IsValidServiceTypeGeneric("")
    ensures !IsValidServiceTypeStrict("")
    ensures !IsValidServiceSubtype("")
  {
    SegmentsOfBare([""]);
    TypeEmptyFacts();
  }

  lemma TypeFooSubBarTcpSpelling()
    ensures Dotted(["_foo", "_sub", "_bar", "_tcp"]) == "_foo._sub._bar._tcp"
  {
  }

  lemma TypeFooSubBarTcpFacts()
    ensures GenericLabels(Body(["_foo", "_sub", "_bar", "_tcp"]))
    ensures !StrictLabels(Body(["_foo", "_sub", "_bar", "_tcp"]))
    ensures SubtypeLabels(Body(["_foo", "_sub", "_bar", "_tcp"]))
  {
  }

  lemma TypeFooSubBarTcp()
    ensures IsValidServiceTypeGeneric("_foo._sub._bar._tcp")
    ensures !IsValidServiceTypeStrict("_foo._sub._bar._tcp")
    ensures IsValidServiceSubtype("_foo._sub._bar._tcp")
  {
    SegmentsOfBare(["_foo", "_sub", "_bar", "_tcp"]);
    TypeFooSubBarTcpSpelling();
    TypeFooSubBarTcpFacts();
  }

  lemma HostEmptyFacts()
    ensures Dotted([""]) == ""
    ensures !HostLabels([""])
  {
  }

  lemma HostEmpty()
    ensures !IsValidHostName("")
  {
    SegmentsOfBare([""]);
    HostEmptyFacts();
  }

  lemma HostDotFacts()
    ensures Dotted(["", ""]) == "."
    ensures !HostLabels(["", ""])
  {
  }

  lemma HostDot()
    ensures !IsValidHostName(".")
  {
    SegmentsOfBare(["", ""]);
    HostDotFacts();
  }

  lemma HostTwoLabelsDotSpelling()
    ensures Dotted(["sf", "ooo", ""]) == "sf.ooo."
  {
  }

  lemma HostTwoLabelsDotFacts()
    ensures !HostLabels(["sf", "ooo", ""])
  {
  }

  lemma HostTwoLabelsDot()
    ensures !IsValidHostName("sf.ooo.")
  {
    SegmentsOfBare(["sf", "ooo", ""]);
    HostTwoLabelsDotSpelling();
    HostTwoLabelsDotFacts();
  }

  lemma HostLabelDotFacts()
    ensures Dotted(["sfooo", ""]) == "sfooo."
    ensures !HostLabels(["sfooo", ""])
  {
  }

  lemma HostLabelDot()
    ensures !IsValidHostName("sfooo.")
  {
    SegmentsOfBare(["sfooo", ""]);
    HostLabelDotFacts();
  }

  lemma HostLabelFacts()
    ensures Dotted(["sfooo"]) == "sfooo"
    ensures HostLabels(["sfooo"])
  {
  }

  lemma HostLabel()
    ensures IsValidHostName("sfooo")
  {
    SegmentsOfBare(["sfooo"]);
    HostLabelFacts();
  }

  lemma DomainDoubleDotSpelling()
    ensures Dotted(["", "", ""]) == ".."
  {
  }

  /** A name whose second label is empty and is followed by the empty last
      label, as in `..` and `com..`, is not a domain. */
  lemma EmptyInteriorFacts(first: Text)
    ensures !DomainLabels([first, "", ""])
  {
    assert Body([first, "", ""]) == [first, ""];
    assert [] in [first, ""];
  }

  lemma DomainDoubleDot()
    ensures !IsValidDomainName("..")
  {
    SegmentsOfBare(["", "", ""]);
    DomainDoubleDotSpelling();
    EmptyInteriorFacts("");
  }

  lemma DomainDotFacts()
    ensures Dotted(["", ""]) == "."
    ensures DomainLabels(["", ""])
  {
  }

  lemma DomainDot()
    ensures IsValidDomainName(".")
  {
    SegmentsOfBare(["", ""]);
    DomainDotFacts();
  }

  lemma DomainEmptyFacts()
    ensures Dotted([""]) == ""
    ensures DomainLabels([""])
  {
  }

  lemma DomainEmpty()
    ensures IsValidDomainName("")
  {
    SegmentsOfBare([""]);
    DomainEmptyFacts();
  }

  lemma DomainComDoubleDotSpelling()
    ensures Dotted(["com", "", ""]) == "com.."
  {
  }

  lemma DomainComDoubleDot()
    ensures !IsValidDomainName("com..")
  {
    SegmentsOfBare(["com", "", ""]);
    DomainComDoubleDotSpelling();
    EmptyInteriorFacts("com");
  }

  lemma DomainComDotFacts()
    ensures Dotted(["com", ""]) == "com."
    ensures DomainLabels(["com", ""])
  {
  }

  lemma DomainComDot()
    ensures IsValidDomainName("com.")
  {
    SegmentsOfBare(["com", ""]);
    DomainComDotFacts();
  }

  lemma DomainComFacts()
    ensures Dotted(["com"]) == "com"
    ensures DomainLabels(["com"])
  {
  }

  lemma DomainCom()
    ensures IsValidDomainName("com")
  {
    SegmentsOfBare(["com"]);
    DomainComFacts();
  }

  lemma FqdnDotFacts()
    ensures Dotted(["", ""]) == "."
    ensures !FqdnLabels(["", ""])
  {
  }

  lemma FqdnDot()
    ensures !IsValidFqdn(".")
  {
    SegmentsOfBare(["", ""]);
    FqdnDotFacts();
  }

  lemma FqdnEmptyFacts()
    ensures Dotted([""]) == ""
    ensures !FqdnLabels([""])
  {
  }

  lemma FqdnEmpty()
    ensures !IsValidFqdn("")
  {
    SegmentsOfBare([""]);
    FqdnEmptyFacts();
  }

  lemma FqdnFooFacts()
    ensures Dotted(["foo"]) == "foo"
    ensures !FqdnLabels(["foo"])
  {
  }

  lemma FqdnFoo()
    ensures !IsValidFqdn("foo")
  {
    SegmentsOfBare(["foo"]);
    FqdnFooFacts();
  }

  lemma FqdnFooBarFacts()
    ensures Dotted(["foo", "bar"]) == "foo.bar"
    ensures FqdnLabels(["foo", "bar"])
    ensures ':' !in "foo.bar"
  {
  }

  lemma FqdnFooBar()
    ensures IsValidFqdn("foo.bar")
  {
    SegmentsOfBare(["foo", "bar"]);
    FqdnFooBarFacts();
  }

  lemma FqdnFooBarDotSpelling()
    ensures Dotted(["foo", "bar", ""]) == "foo.bar."
  {
  }

  lemma FqdnFooBarDotFacts()
    ensures FqdnLabels(["foo", "bar", ""])
    ensures ':' !in "foo.bar."
  {
  }

  lemma FqdnFooBarDot()
    ensures IsValidFqdn("foo.bar.")
  {
    SegmentsOfBare(["foo", "bar", ""]);
    FqdnFooBarDotSpelling();
    FqdnFooBarDotFacts();
  }

  lemma FqdnGnurzFooBarDotSpelling()
    ensures Dotted(["gnurz", "foo", "bar", ""]) == "gnurz.foo.bar."
  {
  }

  lemma FqdnGnurzFooBarDotFacts()
    ensures FqdnLabels(["gnurz", "foo", "bar", ""])
    ensures ':' !in "gnurz.foo.bar."
  {
  }

  lemma FqdnGnurzFooBarDot()
    ensures IsValidFqdn("gnurz.foo.bar.")
  {
    SegmentsOfBare(["gnurz", "foo", "bar", ""]);
    FqdnGnurzFooBarDotSpelling();
    FqdnGnurzFooBarDotFacts();
  }

  lemma FqdnDottedQuadSpelling()
    ensures Dotted(["192", "168", "50", "1"]) == "192.168.50.1"
  {
  }

  lemma FqdnDottedQuadFacts()
    ensures !FqdnLabels(["192", "168", "50", "1"])
  {
  }

  lemma FqdnDottedQuad()
    ensures !IsValidFqdn("192.168.50.1")
  {
    SegmentsOfBare(["192", "168", "50", "1"]);
    FqdnDottedQuadSpelling();
    FqdnDottedQuadFacts();
  }

  lemma FqdnIpv6LoopbackFacts()
    ensures Dotted(["::1"]) == "::1"
    ensures ':' in "::1"
  {
  }

  lemma FqdnIpv6Loopback()
    ensures !IsValidFqdn("::1")
  {
    SegmentsOfBare(["::1"]);
    FqdnIpv6LoopbackFacts();
  }

  lemma SpellDot192168()
    ensures Dotted(["", "192", "168"]) == ".192.168"
  {
  }

  lemma Spell501Dot()
    ensures Dotted(["50", "1", ""]) == "50.1."
  {
  }

  lemma FqdnDotDottedQuadDotSpelling()
    ensures Dotted(["", "192", "168", "50", "1", ""]) == ".192.168.50.1."
  {
    DottedSplit(["", "192", "168"], ["50", "1", ""]);
    SpellDot192168();
    Spell501Dot();
    FqdnDotDottedQuadDotGlue();
  }

  lemma FqdnDotDottedQuadDotGlue()
    ensures ["", "192", "168"] + ["50", "1", ""] == ["", "192", "168", "50", "1", ""]
    ensures ".192.168" + ['.'] + "50.1." == ".192.168.50.1."
  {
  }

  lemma FqdnDotDottedQuadDotFacts()
    ensures !FqdnLabels(["", "192", "168", "50", "1", ""])
  {
    assert Body(["", "192", "168", "50", "1", ""]) == ["", "192", "168", "50", "1"];
    assert [] in ["", "192", "168", "50", "1"];
  }

  lemma FqdnDotDottedQuadDot()
    ensures !IsValidFqdn(".192.168.50.1.")
  {
    SegmentsOfBare(["", "192", "168", "50", "1", ""]);
    FqdnDotDottedQuadDotSpelling();
    FqdnDotDottedQuadDotFacts();
  }

  lemma SubtypeTypeFacts()
    ensures SubtypeLabels(["_foo", "_sub", "_bar", "_tcp"])
    ensures ["_foo", "_sub", "_bar", "_tcp"][2..] == ["_bar", "_tcp"]
    ensures Dotted(["_bar", "_tcp"]) == "_bar._tcp"
  {
  }

  /** The type of the subtype `_foo._sub._bar._tcp` is `_bar._tcp`. */
  lemma SubtypeType()
    ensures GetTypeFromSubtype("_foo._sub._bar._tcp") == Some("_bar._tcp")
  {
    var L := ["_foo", "_sub", "_bar", "_tcp"];
    TypeFooSubBarTcpSpelling();
    SubtypeTypeFacts();
    TypeOfBareSubtype(L);
  }
}
