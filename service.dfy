/**
 * The service-name composer (avahi_service_name_join / avahi_service_name_split).
 *
 * A service name is `<instance>.<type>.<domain>`: the instance is one
 * free-form label, written escaped so that its dots and backslashes survive;
 * the type is two labels such as `_http._tcp`; the domain is the rest.
 */
module Service {
  import opened Octets
  import opened Codec

  /** The three parts of a service name; the instance is optional. */
  datatype Parts = Parts(instance: Option<Text>, serviceType: Text, domain: Text)

  /** The joined spelling: the escaped instance and its separator when there
      is one, then the type, a separator and the domain, the latter two as given. */
  function Composed(instance: Option<Text>, serviceType: Text, domain: Text): Text {
    (if instance.Some? then Escape(instance.value) + Dot else []) + serviceType + Dot + domain
  }

  /**
   * Joins the parts into a buffer of `size` bytes, the NUL included. The type
   * and the domain are copied as given, without checking their structure.
   */
  function ServiceNameJoin(instance: Option<Text>, serviceType: Text, domain: Text, size: nat): (r: Result<Text>)
    ensures r.Ok? <==> |Composed(instance, serviceType, domain)| < size
    ensures r.Ok? ==> |r.value| < size
    ensures r.Ok? ==> |r.value| == (if instance.Some? then |Escape(instance.value)| + 1 else 0) + |serviceType| + 1 + |domain|
    ensures r.Err? ==> r.error == BufferTooSmall
  {
    var t := Composed(instance, serviceType, domain);
    if |t| >= size then Err(BufferTooSmall) else Ok(t)
  }

  /** Appends `piece` when it fits with room for a NUL after it. */
  method PutChecked(piece: Text, w: Writer) returns (ok: bool)
    requires w.Valid()
    modifies w, w.buf
    ensures w.Valid() && w.buf == old(w.buf)
    ensures ok <==> |piece| < old(w.Room())
    ensures ok ==> w.Written() == old(w.Written()) + piece && w.Room() == old(w.Room()) - |piece|
    ensures !ok ==> w.pos == old(w.pos)
    ensures forall j :: w.pos <= j < w.buf.Length ==> w.buf[j] == old(w.buf[j])
  {
    if |piece| >= w.Room() {
      return false;
    }
    w.Put(piece);
    return true;
  }

  /**
   * Joins the parts into the writer `w`, piece by piece, each piece checked
   * against the room left. On success the writer holds the joined name,
   * NUL-terminated, and the buffer past the NUL is untouched.
   */
  method ServiceNameJoinInto(instance: Option<Text>, serviceType: Text, domain: Text, w: Writer) returns (ok: bool)
    requires w.Valid()
    modifies w, w.buf
    ensures w.Valid() && w.buf == old(w.buf)
    ensures ok <==> ServiceNameJoin(instance, serviceType, domain, old(w.Room())).Ok?
    ensures ok ==> w.Written() == old(w.Written()) + ServiceNameJoin(instance, serviceType, domain, old(w.Room())).value
    ensures ok ==> w.buf[w.pos] == NUL
    ensures ok ==> forall j :: w.pos < j < w.buf.Length ==> w.buf[j] == old(w.buf[j])
  {
    ghost var start, room := w.Written(), w.Room();
    ghost var head: Text := [];
    if instance.Some? {
      ok := EscapeLabel(instance.value, w);
      if !ok {
        return;
      }
      assert |w.Written()| == |start| + |Escape(instance.value)|;
      ok := PutChecked(Dot, w);
      if !ok {
        return;
      }
      head := Escape(instance.value) + Dot;
      Associative(start, Escape(instance.value), Dot);
    }
    assert w.Written() == start + head && w.Room() == room - |head|;
    ok := PutChecked(serviceType, w);
    if !ok {
      return;
    }
    ok := PutChecked(Dot, w);
    if !ok {
      return;
    }
    ok := PutChecked(domain, w);
    if ok {
      Associative(start, head, serviceType);
      Associative(start, head + serviceType, Dot);
      Associative(start, head + serviceType + Dot, domain);
      w.buf[w.pos] := NUL;
    }
  }

  /** Reads a label that a service name must have: the end of the text
      there means the name is truncated. */
  function Required(s: Text, pos: nat, size: nat): (r: Result<Cut>)
    requires pos <= |s|
    ensures r.Ok? ==> r == ReadLabel(s, pos, size) && pos < |s|
    ensures r.Err? ==> r.error == TruncatedName || r == ReadLabel(s, pos, size)
  {
    if pos == |s| then Err(TruncatedName) else ReadLabel(s, pos, size)
  }

  /**
   * Reads the type and the domain from `pos`: two labels, each at most 63
   * bytes, re-escaped and joined by a separator, and then the rest of the
   * text verbatim. A third label must follow, so the second one has to end
   * at a separator; fewer labels are TruncatedName. Each part must fit its
   * buffer with its NUL.
   */
  function SplitType(s: Text, pos: nat, typeSize: nat, domainSize: nat): (r: Result<(Text, Text)>)
    requires pos <= |s|
    ensures r.Ok? ==> |r.value.0| < typeSize && |r.value.1| < domainSize
    ensures r.Ok? ==> |r.value.1| < |s| - pos && r.value.1 == s[|s| - |r.value.1|..]
    ensures r.Ok? ==> s[|s| - |r.value.1| - 1] == '.'
    ensures r.Err? ==> r.error in {MalformedEscape, LabelTooLong, TruncatedName, BufferTooSmall}
  {
    var a :- Required(s, pos, LabelMax);
    var b :- Required(s, a.next, LabelMax);
    if !b.atSeparator then Err(TruncatedName)
    else
      var t := Escape(a.bytes) + Dot + Escape(b.bytes);
      var d := s[b.next..];
      if |t| >= typeSize || |d| >= domainSize then Err(BufferTooSmall) else Ok((t, d))
  }

  /**
   * SplitType is TruncatedName exactly when fewer than three labels remain:
   * the text ends at `pos`, or after the first label, or the second label
   * runs to the end of the text without a separator.
   */
  lemma SplitTypeTruncated(s: Text, pos: nat, typeSize: nat, domainSize: nat)
    requires pos <= |s|
    ensures SplitType(s, pos, typeSize, domainSize) == Err(TruncatedName) <==>
            (pos == |s| ||
             (ReadLabel(s, pos, LabelMax).Ok? &&
              (ReadLabel(s, pos, LabelMax).value.next == |s| ||
               (ReadLabel(s, ReadLabel(s, pos, LabelMax).value.next, LabelMax).Ok? &&
                !ReadLabel(s, ReadLabel(s, pos, LabelMax).value.next, LabelMax).value.atSeparator))))
  {
  }

  /** The room the instance label is read into: the caller's buffer, but
      never more than a label buffer, so a label keeps its 63-byte limit. */
  function InstanceSize(nameSize: nat): (n: nat)
    ensures n <= nameSize && n <= LabelMax
    ensures n == nameSize || n == LabelMax
  {
    if nameSize < LabelMax then nameSize else LabelMax
  }

  /**
   * Splits a joined service name. When the caller wants the instance, the
   * first label is read into a buffer of `nameSize` bytes, at most a label
   * buffer; otherwise the text starts with the type and no label is skipped.
   */
  function ServiceNameSplit(s: Text, wantInstance: bool, nameSize: nat, typeSize: nat, domainSize: nat): (r: Result<Parts>)
    ensures r.Ok? ==> (r.value.instance.Some? <==> wantInstance)
    ensures r.Ok? && wantInstance ==> |r.value.instance.value| < nameSize && |r.value.instance.value| < LabelMax
    ensures r.Ok? ==> |r.value.serviceType| < typeSize && |r.value.domain| < domainSize
    ensures r.Ok? ==> |r.value.domain| < |s| && r.value.domain == s[|s| - |r.value.domain|..]
    ensures r.Err? ==> r.error in {MalformedEscape, LabelTooLong, TruncatedName, BufferTooSmall}
  {
    if wantInstance then
      var c :- Required(s, 0, InstanceSize(nameSize));
      var p :- SplitType(s, c.next, typeSize, domainSize);
      Ok(Parts(Some(c.bytes), p.0, p.1))
    else
      var p :- SplitType(s, 0, typeSize, domainSize);
      Ok(Parts(None, p.0, p.1))
  }

  /** The canonical spelling of a two-label service type. */
  function TypeOf(service: Text, protocol: Text): Text {
    Escape(service) + Dot + Escape(protocol)
  }

  /** The service label of a type held at `pre` in a joined name is read back. */
  lemma ServiceOfJoined(s: Text, pre: Text, service: Text, protocol: Text, domain: Text)
    requires s == pre + TypeOf(service, protocol) + Dot + domain && |service| < LabelMax
    ensures ReadLabel(s, |pre|, LabelMax) == Ok(Cut(service, |pre| + |Escape(service)| + 1, true))
  {
    var e1 := Escape(service);
    assert forall i :: 0 <= i < |e1| ==> s[|pre| + i] == e1[i];
    assert s[|pre|..|pre| + |e1|] == e1;
    ReadEscapedAt(s, |pre|, service, LabelMax);
  }

  /** The protocol label of a type held at `pre` in a joined name is read back. */
  lemma ProtocolOfJoined(s: Text, pre: Text, service: Text, protocol: Text, domain: Text, mid: nat)
    requires s == pre + TypeOf(service, protocol) + Dot + domain && |protocol| < LabelMax
    requires mid == |pre| + |Escape(service)| + 1
    ensures ReadLabel(s, mid, LabelMax) == Ok(Cut(protocol, mid + |Escape(protocol)| + 1, true))
  {
    var e2 := Escape(protocol);
    assert forall i :: 0 <= i < |e2| ==> s[mid + i] == e2[i];
    assert s[mid..mid + |e2|] == e2;
    ReadEscapedAt(s, mid, protocol, LabelMax);
  }

  /** The domain follows the type held at `pre` in a joined name. */
  lemma DomainOfJoined(s: Text, pre: Text, e1: Text, e2: Text, domain: Text)
    requires s == pre + (e1 + Dot + e2) + Dot + domain
    ensures s[|pre| + |e1| + 1 + |e2| + 1..] == domain
  {
    assert forall i :: 0 <= i < |domain| ==> s[|pre| + |e1| + 1 + |e2| + 1 + i] == domain[i];
  }

  /** SplitType once both labels of the type have been read. */
  lemma SplitTypeOf(s: Text, pos: nat, a: Cut, b: Cut, typeSize: nat, domainSize: nat)
    requires pos < |s| && ReadLabel(s, pos, LabelMax) == Ok(a)
    requires a.next < |s| && ReadLabel(s, a.next, LabelMax) == Ok(b) && b.atSeparator
    requires |Escape(a.bytes) + Dot + Escape(b.bytes)| < typeSize && |s| - b.next < domainSize
    ensures SplitType(s, pos, typeSize, domainSize) == Ok((Escape(a.bytes) + Dot + Escape(b.bytes), s[b.next..]))
  {
  }

  /** Reading the type back from a joined name that holds it at `pre`. */
  lemma SplitTypeJoined(s: Text, pre: Text, service: Text, protocol: Text, domain: Text, typeSize: nat, domainSize: nat)
    requires s == pre + TypeOf(service, protocol) + Dot + domain
    requires |service| < LabelMax && |protocol| < LabelMax
    requires |TypeOf(service, protocol)| < typeSize && |domain| < domainSize
    ensures SplitType(s, |pre|, typeSize, domainSize) == Ok((TypeOf(service, protocol), domain))
  {
    var mid := |pre| + |Escape(service)| + 1;
    ServiceOfJoined(s, pre, service, protocol, domain);
    ProtocolOfJoined(s, pre, service, protocol, domain, mid);
    DomainOfJoined(s, pre, Escape(service), Escape(protocol), domain);
    SplitTypeOf(s, |pre|, Cut(service, mid, true), Cut(protocol, mid + |Escape(protocol)| + 1, true), typeSize, domainSize);
  }

  /** An escaped label and its separator at the front of a text, as slices. */
  lemma FrontLabel(s: Text, pre: Text, e: Text)
    requires pre == e + Dot && |pre| <= |s| && s[..|pre|] == pre
    ensures |e| < |s| && s[0..|e|] == e && s[|e|] == '.'
  {
    assert forall i :: 0 <= i < |e| ==> s[i] == s[..|pre|][i];
  }

  /** Where the two escaped labels of a type held at `pos` sit, when the text
      ends right after the type: the second one starts at `q`. */
  lemma TypeAtEnd(s: Text, pre: Text, pos: nat, q: nat, e1: Text, e2: Text)
    requires s == pre + (e1 + Dot + e2) && pos == |pre| && q == pos + |e1| + 1
    ensures q <= |s| && s[pos..q - 1] == e1 && s[q - 1] == '.'
    ensures q + |e2| == |s| && s[q..|s|] == e2
  {
    assert forall i :: 0 <= i < |e1| ==> s[pos + i] == e1[i];
    assert forall i :: 0 <= i < |e2| ==> s[q + i] == e2[i];
  }

  /** Two escaped labels at `pos`, a separator between them and nothing
      after the second (which starts at `q`), are TruncatedName for SplitType. */
  lemma TwoLabelsAt(s: Text, pos: nat, q: nat, service: Text, protocol: Text, typeSize: nat, domainSize: nat)
    requires |service| < LabelMax && |protocol| < LabelMax
    requires q == pos + |Escape(service)| + 1 && q <= |s|
    requires s[pos..q - 1] == Escape(service) && s[q - 1] == '.'
    requires q + |Escape(protocol)| == |s| && s[q..|s|] == Escape(protocol)
    ensures SplitType(s, pos, typeSize, domainSize) == Err(TruncatedName)
  {
    var a := SeparatedCut(s, pos, service);
    LastLabelAfter(s, pos, a, q, protocol, typeSize, domainSize);
  }

  /** The read of an escaped label followed by a separator, as a cut that
      stops right after the separator. */
  lemma SeparatedCut(s: Text, pos: nat, raw: Text) returns (a: Cut)
    requires |raw| < LabelMax && pos + |Escape(raw)| < |s|
    requires s[pos..pos + |Escape(raw)|] == Escape(raw) && s[pos + |Escape(raw)|] == '.'
    ensures ReadLabel(s, pos, LabelMax) == Ok(a) && a.next == pos + |Escape(raw)| + 1
  {
    ReadEscapedAt(s, pos, raw, LabelMax);
    a := Cut(raw, pos + |Escape(raw)| + 1, true);
  }

  /** Once the first label of a type has been read, an escaped label that
      runs from the cursor `q` to the end of the text leaves SplitType short
      of a domain. */
  lemma LastLabelAfter(s: Text, pos: nat, a: Cut, q: nat, raw: Text, typeSize: nat, domainSize: nat)
    requires pos < |s| && ReadLabel(s, pos, LabelMax) == Ok(a) && a.next == q
    requires |raw| < LabelMax && q + |Escape(raw)| == |s| && s[q..|s|] == Escape(raw)
    ensures SplitType(s, pos, typeSize, domainSize) == Err(TruncatedName)
  {
    var b := FinalCut(s, q, raw);
    SecondLabelEnds(s, pos, a, b, typeSize, domainSize);
  }

  /** The read of an escaped label that runs to the end of the text, as a
      cut with no separator. */
  lemma FinalCut(s: Text, pos: nat, raw: Text) returns (b: Cut)
    requires |raw| < LabelMax && pos + |Escape(raw)| == |s|
    requires s[pos..pos + |Escape(raw)|] == Escape(raw)
    ensures ReadLabel(s, pos, LabelMax) == Ok(b) && !b.atSeparator
  {
    ReadEscapedToEnd(s, pos, raw, LabelMax);
    b := Cut(raw, |s|, false);
  }

  /** SplitType once the second label of the type has run to the end of the text. */
  lemma SecondLabelEnds(s: Text, pos: nat, a: Cut, b: Cut, typeSize: nat, domainSize: nat)
    requires pos < |s| && ReadLabel(s, pos, LabelMax) == Ok(a)
    requires a.next <= |s| && ReadLabel(s, a.next, LabelMax) == Ok(b) && !b.atSeparator
    ensures SplitType(s, pos, typeSize, domainSize) == Err(TruncatedName)
  {
  }

  /** A text that ends right after a type held at `pos` has only two labels
      left there, so reading the type and domain is TruncatedName. */
  lemma TypeWithoutDomain(s: Text, pre: Text, pos: nat, service: Text, protocol: Text, typeSize: nat, domainSize: nat)
    requires s == pre + TypeOf(service, protocol) && pos == |pre|
    requires |service| < LabelMax && |protocol| < LabelMax
    ensures SplitType(s, pos, typeSize, domainSize) == Err(TruncatedName)
  {
    var q := pos + |Escape(service)| + 1;
    TypeAtEnd(s, pre, pos, q, Escape(service), Escape(protocol));
    TwoLabelsAt(s, pos, q, service, protocol, typeSize, domainSize);
  }

  /** A text begins with what was put in front of it. */
  lemma FrontOf(pre: Text, rest: Text)
    ensures (pre + rest)[..|pre|] == pre
  {
  }

  /** A joined name starts with the escaped instance and its separator. */
  lemma InstanceFront(s: Text, pre: Text, instance: Text, serviceType: Text, domain: Text)
    requires pre == Escape(instance) + Dot && s == pre + serviceType + Dot + domain
    ensures |pre| == |Escape(instance)| + 1 <= |s| && s[..|pre|] == pre
  {
  }

  /** The instance label at the front of a joined name is read back, and the
      cursor ends after its separator. */
  lemma InstanceOfJoined(s: Text, pre: Text, instance: Text, nameSize: nat)
    requires pre == Escape(instance) + Dot && |pre| <= |s| && s[..|pre|] == pre && |instance| < nameSize
    ensures ReadLabel(s, 0, nameSize) == Ok(Cut(instance, |Escape(instance)| + 1, true))
  {
    FrontLabel(s, pre, Escape(instance));
    ReadEscapedAt(s, 0, instance, nameSize);
  }

  /** An instance label at the front of a text, too long for the buffer, is refused. */
  lemma InstanceTooLong(s: Text, pre: Text, instance: Text, size: nat)
    requires pre == Escape(instance) + Dot && |pre| <= |s| && s[..|pre|] == pre && |instance| >= size
    ensures ReadLabel(s, 0, size) == Err(LabelTooLong)
  {
    FrontLabel(s, pre, Escape(instance));
    ReadEscapedTooLong(s, 0, instance, size);
  }

  /** ServiceNameSplit with the instance wanted, once the instance label has been read. */
  lemma SplitInstanceOf(s: Text, c: Cut, next: nat, nameSize: nat, typeSize: nat, domainSize: nat, serviceType: Text, domain: Text)
    requires 0 < |s| && ReadLabel(s, 0, InstanceSize(nameSize)) == Ok(c) && c.next == next <= |s|
    requires SplitType(s, next, typeSize, domainSize) == Ok((serviceType, domain))
    ensures ServiceNameSplit(s, true, nameSize, typeSize, domainSize) == Ok(Parts(Some(c.bytes), serviceType, domain))
  {
  }

  /** SplitJoin for a name with an instance, written as `pre` in front of the type. */
  lemma SplitJoinInstance(s: Text, pre: Text, instance: Text, service: Text, protocol: Text, domain: Text,
                          nameSize: nat, typeSize: nat, domainSize: nat)
    requires pre == Escape(instance) + Dot && s == pre + TypeOf(service, protocol) + Dot + domain
    requires |service| < LabelMax && |protocol| < LabelMax && |instance| < InstanceSize(nameSize)
    requires |TypeOf(service, protocol)| < typeSize && |domain| < domainSize
    ensures ServiceNameSplit(s, true, nameSize, typeSize, domainSize) == Ok(Parts(Some(instance), TypeOf(service, protocol), domain))
  {
    InstanceFront(s, pre, instance, TypeOf(service, protocol), domain);
    InstanceOfJoined(s, pre, instance, InstanceSize(nameSize));
    SplitTypeJoined(s, pre, service, protocol, domain, typeSize, domainSize);
    SplitInstanceOf(s, Cut(instance, |Escape(instance)| + 1, true), |pre|, nameSize, typeSize, domainSize, TypeOf(service, protocol), domain);
  }

  /** ServiceNameSplit with the instance wanted fails as the type read after
      the instance fails. */
  lemma SplitTypeFailsAfter(s: Text, c: Cut, next: nat, nameSize: nat, typeSize: nat, domainSize: nat, e: Error)
    requires 0 < |s| && ReadLabel(s, 0, InstanceSize(nameSize)) == Ok(c) && c.next == next <= |s|
    requires SplitType(s, next, typeSize, domainSize) == Err(e)
    ensures ServiceNameSplit(s, true, nameSize, typeSize, domainSize) == Err(e)
  {
  }

  /**
   * A name that ends right after its type, with or without an instance in
   * front, has fewer than three labels after the instance and is refused
   * with TruncatedName.
   */
  lemma SplitWithoutDomain(instance: Option<Text>, service: Text, protocol: Text, nameSize: nat, typeSize: nat, domainSize: nat)
    requires |service| < LabelMax && |protocol| < LabelMax
    requires instance.Some? ==> |instance.value| < nameSize && |instance.value| < LabelMax
    ensures ServiceNameSplit((if instance.Some? then Escape(instance.value) + Dot else []) + TypeOf(service, protocol),
                             instance.Some?, nameSize, typeSize, domainSize)
            == Err(TruncatedName)
  {
    var pre := if instance.Some? then Escape(instance.value) + Dot else [];
    var s := pre + TypeOf(service, protocol);
    TypeWithoutDomain(s, pre, |pre|, service, protocol, typeSize, domainSize);
    if instance.Some? {
      FrontOf(pre, TypeOf(service, protocol));
      InstanceOfJoined(s, pre, instance.value, InstanceSize(nameSize));
      SplitTypeFailsAfter(s, Cut(instance.value, |Escape(instance.value)| + 1, true), |pre|,
                          nameSize, typeSize, domainSize, TruncatedName);
    } else {
      assert s == TypeOf(service, protocol);
    }
  }

  /**
   * Splitting a joined name gives back its parts, when the type is the
   * canonical spelling of two labels of at most 63 bytes each, the instance
   * is a label of at most 63 bytes too, and every part fits its buffer; the
   * instance may hold dots, spaces and backslashes.
   */
  lemma SplitJoin(instance: Option<Text>, service: Text, protocol: Text, domain: Text,
                  size: nat, nameSize: nat, typeSize: nat, domainSize: nat)
    requires |service| < LabelMax && |protocol| < LabelMax
    requires instance.Some? ==> |instance.value| < nameSize && |instance.value| < LabelMax
    requires |TypeOf(service, protocol)| < typeSize && |domain| < domainSize
    requires ServiceNameJoin(instance, TypeOf(service, protocol), domain, size).Ok?
    ensures ServiceNameSplit(ServiceNameJoin(instance, TypeOf(service, protocol), domain, size).value,
                             instance.Some?, nameSize, typeSize, domainSize)
            == Ok(Parts(instance, TypeOf(service, protocol), domain))
  {
    var ty := TypeOf(service, protocol);
    var s := Composed(instance, ty, domain);
    if instance.Some? {
      SplitJoinInstance(s, Escape(instance.value) + Dot, instance.value, service, protocol, domain, nameSize, typeSize, domainSize);
    } else {
      assert s == [] + ty + Dot + domain;
      SplitTypeJoined(s, [], service, protocol, domain, typeSize, domainSize);
    }
  }

  /**
   * An instance of 64 bytes or more, or one that does not fit the caller's
   * name buffer with its NUL, is refused with LabelTooLong, however large
   * the name buffer.
   */
  lemma SplitLongInstance(instance: Text, rest: Text, nameSize: nat, typeSize: nat, domainSize: nat)
    requires |instance| >= nameSize || |instance| >= LabelMax
    ensures ServiceNameSplit(Escape(instance) + Dot + rest, true, nameSize, typeSize, domainSize) == Err(LabelTooLong)
  {
    var s := Escape(instance) + Dot + rest;
    assert s[..|Escape(instance) + Dot|] == Escape(instance) + Dot;
    InstanceTooLong(s, Escape(instance) + Dot, instance, InstanceSize(nameSize));
    SplitInstanceFails(s, nameSize, typeSize, domainSize, LabelTooLong);
  }

  /** ServiceNameSplit with the instance wanted fails as the instance read fails. */
  lemma SplitInstanceFails(s: Text, nameSize: nat, typeSize: nat, domainSize: nat, e: Error)
    requires 0 < |s| && ReadLabel(s, 0, InstanceSize(nameSize)) == Err(e)
    ensures ServiceNameSplit(s, true, nameSize, typeSize, domainSize) == Err(e)
  {
  }
}
