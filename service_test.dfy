/**
 * The service-name composer as the library's domain test drives it: an
 * instance holding dots, a space and a backslash is joined with `_http._tcp`
 * and `test.local` and split back; then a name without an instance is
 * joined and split with the instance declined.
 */
module ServiceTest {
  import opened Octets
  import opened Codec
  import opened Service

  /** The buffer the joined names are written to. */
  const JoinSize: nat := 256
  /** The buffer the split instance is read into. */
  const NameSize: nat := 64

  const Http: Text := "_http._tcp"
  const TestLocal: Text := "test.local"
  /** The instance `foo.foo.foo \.`: two dots, a space, a backslash and a final dot. */
  const InstancePieces: seq<Text> := ["foo", ".", "foo", ".", "foo ", "\\", "."]
  const Instance: Text := Flatten(InstancePieces)
  /** The instance as written into a name: `foo\.foo\.foo \\\.`. */
  const EscapedPieces: seq<Text> := ["foo", "\\.", "foo", "\\.", "foo ", "\\\\", "\\."]
  const EscapedInstance: Text := Flatten(EscapedPieces)
  /** The joined name: the escaped instance, the type and the domain, separated by dots. */
  const Joined: Text := EscapedInstance + "." + Http + "." + TestLocal

  /** `_http._tcp` is the canonical spelling of its two labels. */
  lemma HttpType()
    ensures TypeOf("_http", "_tcp") == Http
  {
    EscapePlain("_http");
    EscapePlain("_tcp");
  }

  lemma EscapeWords()
    ensures Escape("foo") == "foo" && Escape("foo ") == "foo "
  {
    EscapePlain("foo");
    EscapePlain("foo ");
  }

  /** Each piece of the instance escapes to the piece at the same index. */
  lemma EscapeUnits()
    ensures |InstancePieces| == |EscapedPieces|
    ensures forall i :: 0 <= i < |InstancePieces| ==> Escape(InstancePieces[i]) == EscapedPieces[i]
  {
    forall i | 0 <= i < |InstancePieces|
      ensures Escape(InstancePieces[i]) == EscapedPieces[i]
    {
      if i == 0 || i == 2 || i == 4 {
        EscapeWords();
      }
    }
  }

  lemma InstanceLength()
    ensures |Instance| < NameSize && |EscapedInstance| <= 28
  {
    FlattenBound(InstancePieces, 4);
    FlattenBound(EscapedPieces, 4);
  }

  /** Dots and the backslash of the instance are escaped, the space is not. */
  lemma EscapeInstance()
    ensures Escape(Instance) == EscapedInstance
  {
    EscapeUnits();
    EscapeFlatten(InstancePieces, EscapedPieces);
  }

  /** Joining the instance, `_http._tcp` and `test.local` into 256 bytes. */
  lemma JoinInstance()
    ensures ServiceNameJoin(Some(Instance), Http, TestLocal, JoinSize) == Ok(Joined)
  {
    EscapeInstance();
    InstanceLength();
  }

  /** Splitting the joined name gives back the instance as it was given. */
  lemma SplitInstance(typeSize: nat, domainSize: nat)
    requires typeSize > |Http| && domainSize > |TestLocal|
    ensures ServiceNameSplit(Joined, true, NameSize, typeSize, domainSize) == Ok(Parts(Some(Instance), Http, TestLocal))
  {
    JoinInstance();
    InstanceLength();
    HttpType();
    SplitJoin(Some(Instance), "_http", "_tcp", TestLocal, JoinSize, NameSize, typeSize, domainSize);
  }

  const OneTwo: Text := "one.two\\. .local"
  const TypeOnly: Text := "_http._tcp.one.two\\. .local"

  /** Without an instance the type and the domain are copied as given. */
  lemma JoinTypeOnly()
    ensures ServiceNameJoin(None, Http, OneTwo, JoinSize) == Ok(TypeOnly)
  {
    assert [] + Http + ['.'] + OneTwo == TypeOnly;
  }

  /** Declining the instance, the split reads the type from the first label
      on and leaves the domain, escapes and all, as it was. */
  lemma SplitTypeOnly(typeSize: nat, domainSize: nat)
    requires typeSize > |Http| && domainSize > |OneTwo|
    ensures ServiceNameSplit(TypeOnly, false, 0, typeSize, domainSize) == Ok(Parts(None, Http, OneTwo))
  {
    JoinTypeOnly();
    HttpType();
    SplitJoin(None, "_http", "_tcp", OneTwo, JoinSize, 0, typeSize, domainSize);
  }

  /** The type alone, with no domain after it, is refused whether or not an
      instance is wanted; so is the test's instance followed by the type alone. */
  lemma SplitTypeWithoutDomain(typeSize: nat, domainSize: nat)
    ensures ServiceNameSplit(Http, false, 0, typeSize, domainSize) == Err(TruncatedName)
    ensures ServiceNameSplit(EscapedInstance + "." + Http, true, NameSize, typeSize, domainSize) == Err(TruncatedName)
  {
    HttpType();
    SplitWithoutDomain(None, "_http", "_tcp", 0, typeSize, domainSize);
    assert [] + Http == Http;
    EscapeInstance();
    InstanceLength();
    SplitWithoutDomain(Some(Instance), "_http", "_tcp", NameSize, typeSize, domainSize);
  }

  /** The join of the test written into a fresh 256-byte buffer. */
  method JoinInstanceInto() returns (ok: bool, joined: Text)
    ensures ok && joined == Joined
  {
    var w := new Writer(JoinSize);
    JoinInstance();
    ok := ServiceNameJoinInto(Some(Instance), Http, TestLocal, w);
    joined := w.Written();
  }

  /** The join without an instance, written into a fresh 256-byte buffer. */
  method JoinTypeOnlyInto() returns (ok: bool, joined: Text)
    ensures ok && joined == TypeOnly
  {
    var w := new Writer(JoinSize);
    JoinTypeOnly();
    ok := ServiceNameJoinInto(None, Http, OneTwo, w);
    joined := w.Written();
  }
}
