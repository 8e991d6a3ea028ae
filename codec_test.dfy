/**
 * The label codec as the library's domain test drives it: one label is read
 * from a text holding a backslash escape, decimal escapes, an escaped `.`
 * and raw non-ASCII bytes (the UTF-8 bytes of `äöü` and `öö`); the bytes
 * read are escaped again, and the escaped text is read back.
 */
module CodecTest {
  import opened Octets
  import opened Codec
  import opened Names
  import opened NamesTest

  /** The destination buffers of the test. */
  const BufferSize: nat := 256

  /** The UTF-8 bytes of `ä`, `ö` and `ü`. */
  const Ae: Text := "\U{C3}\U{A4}"
  const Oe: Text := "\U{C3}\U{B6}"
  const Ue: Text := "\U{C3}\U{BC}"

  /** The first label of the sample, unit by unit, and the bytes each unit spells. */
  const LabelPieces: seq<Text> :=
    ["--:---", "\\\\", "\\123", "\\065", "_", Ae, Oe, Ue, "\\064", "\\.", "\\\\", "sj", Oe, Oe, "dfhh"]
  const RawPieces: seq<Text> :=
    ["--:---", "\\", "{", "A", "_", Ae, Oe, Ue, "@", ".", "\\", "sj", Oe, Oe, "dfhh"]

  const SampleLabel: Text := Flatten(LabelPieces)
  const SampleRest: Text := "sdfjhskjdf"
  /** `--:---\\\123\065_äöü\064\.\\sjöödfhh.sdfjhskjdf` */
  const Sample: Text := SampleLabel + "." + SampleRest
  /** The bytes the first label of the sample spells. */
  const SampleRaw: Text := Flatten(RawPieces)

  /** Each raw piece escaped: the non-ASCII bytes as decimal escapes. */
  const EscapedPieces: seq<Text> :=
    ["--:---", "\\\\", "{", "A", "_", "\\195\\164", "\\195\\182", "\\195\\188", "@", "\\.", "\\\\", "sj", "\\195\\182", "\\195\\182", "dfhh"]
  const SampleEscaped: Text := Flatten(EscapedPieces)

  lemma SpellDecimalBrace()
    ensures Spells("\\123", 0, "{", 4)
  {
    assert DecodeUnit("\\123", 0) == Byte('{', 4);
    SpellsUnit("\\123", 0, '{', 4);
  }

  lemma SpellDecimalAt()
    ensures Spells("\\064", 0, "@", 4)
  {
    assert DecodeUnit("\\064", 0) == Byte('@', 4);
    SpellsUnit("\\064", 0, '@', 4);
  }

  /** The pieces of the sample that hold neither `.` nor `\`. */
  lemma SampleWords()
    ensures Bare("--:---") && Bare("_") && Bare(Ae) && Bare(Oe) && Bare(Ue) && Bare("sj") && Bare("dfhh")
  {
  }

  /** A bare piece of the sample spells itself. */
  lemma SpellWord(w: Text)
    requires w in {"--:---", "_", Ae, Oe, Ue, "sj", "dfhh"}
    ensures Spells(w, 0, w, |w|)
  {
    SampleWords();
    SpellsSelf(w);
  }

  /** Each unit of the first label spells its raw piece. */
  lemma LabelUnits()
    ensures |LabelPieces| == |RawPieces|
    ensures forall i :: 0 <= i < |LabelPieces| ==> Spells(LabelPieces[i], 0, RawPieces[i], |LabelPieces[i]|)
  {
    forall i | 0 <= i < |LabelPieces|
      ensures Spells(LabelPieces[i], 0, RawPieces[i], |LabelPieces[i]|)
    {
      if i == 1 || i == 10 {
        SpellEscapedBackslash();
      } else if i == 2 {
        SpellDecimalBrace();
      } else if i == 3 {
        SpellDecimalA();
      } else if i == 8 {
        SpellDecimalAt();
      } else if i == 9 {
        SpellEscapedDot();
      } else {
        SpellWord(LabelPieces[i]);
      }
    }
  }

  /** The first label of the sample spells its raw bytes. */
  lemma SpellSampleLabel()
    ensures Spells(SampleLabel, 0, SampleRaw, |SampleLabel|)
  {
    LabelUnits();
    SpellsFlatten(LabelPieces, RawPieces);
  }

  lemma RawLength()
    ensures |SampleRaw| < BufferSize
  {
    FlattenBound(RawPieces, 6);
  }

  /** Reading the first label of the sample into 256 bytes yields its raw
      bytes and leaves the cursor on the text after the separator. */
  lemma UnescapeSample()
    ensures ReadLabel(Sample, 0, BufferSize) == Ok(Cut(SampleRaw, |SampleLabel| + 1, true))
    ensures Sample[|SampleLabel| + 1..] == SampleRest
  {
    SpellSampleLabel();
    RawLength();
    assert [] + SampleLabel + (Dot + SampleRest) == Sample;
    WholeSpells([], SampleLabel, Dot + SampleRest, SampleRaw);
    assert Sample[|SampleLabel|] == '.';
    SpelledSeparated(Sample, 0, SampleRaw, |SampleLabel|, BufferSize);
  }

  lemma EscapeAe()
    ensures Escape(Ae) == "\\195\\164"
  {
  }

  lemma EscapeOe()
    ensures Escape(Oe) == "\\195\\182"
  {
  }

  lemma EscapeUe()
    ensures Escape(Ue) == "\\195\\188"
  {
  }

  lemma EscapePlainWords()
    ensures Escape("--:---") == "--:---" && Escape("sj") == "sj" && Escape("dfhh") == "dfhh"
  {
    EscapePlain("--:---");
    EscapePlain("sj");
    EscapePlain("dfhh");
  }

  /** The single-byte pieces: `.` and `\` get a backslash, the others stay. */
  lemma EscapeSingles()
    ensures Escape("\\") == "\\\\" && Escape(".") == "\\."
    ensures Escape("{") == "{" && Escape("A") == "A" && Escape("_") == "_" && Escape("@") == "@"
  {
  }

  /** The pieces before the non-ASCII bytes escape to their escaped pieces. */
  lemma EscapeUnitsFront()
    ensures forall i :: 0 <= i < 5 ==> Escape(RawPieces[i]) == EscapedPieces[i]
  {
    forall i | 0 <= i < 5
      ensures Escape(RawPieces[i]) == EscapedPieces[i]
    {
      if i == 0 {
        EscapePlainWords();
      } else if i == 1 {
        EscapeSingles();
      } else if i == 2 {
        EscapeSingles();
      } else if i == 3 {
        EscapeSingles();
      } else {
        assert i == 4;
        EscapeSingles();
      }
    }
  }

  /** The bytes of `äöü` escape to decimal escapes. */
  lemma EscapeUnitsNonAscii()
    ensures forall i :: 5 <= i < 8 ==> Escape(RawPieces[i]) == EscapedPieces[i]
  {
    forall i | 5 <= i < 8
      ensures Escape(RawPieces[i]) == EscapedPieces[i]
    {
      if i == 5 {
        EscapeAe();
      } else if i == 6 {
        EscapeOe();
      } else {
        assert i == 7;
        EscapeUe();
      }
    }
  }

  /** `@` stays, `.` and `\` get a backslash. */
  lemma EscapeUnitsMiddle()
    ensures forall i :: 8 <= i < 11 ==> Escape(RawPieces[i]) == EscapedPieces[i]
  {
    forall i | 8 <= i < 11
      ensures Escape(RawPieces[i]) == EscapedPieces[i]
    {
      if i == 8 {
        EscapeSingles();
      } else if i == 9 {
        EscapeSingles();
      } else {
        assert i == 10;
        EscapeSingles();
      }
    }
  }

  /** The last pieces escape to their escaped pieces. */
  lemma EscapeUnitsBack()
    ensures forall i :: 11 <= i < 15 ==> Escape(RawPieces[i]) == EscapedPieces[i]
  {
    forall i | 11 <= i < 15
      ensures Escape(RawPieces[i]) == EscapedPieces[i]
    {
      if i == 11 {
        EscapePlainWords();
      } else if i == 12 {
        EscapeOe();
      } else if i == 13 {
        EscapeOe();
      } else {
        assert i == 14;
        EscapePlainWords();
      }
    }
  }

  /** Each raw piece escapes to its escaped piece. */
  lemma EscapeUnits()
    ensures |RawPieces| == |EscapedPieces|
    ensures forall i :: 0 <= i < |RawPieces| ==> Escape(RawPieces[i]) == EscapedPieces[i]
  {
    EscapeUnitsFront();
    EscapeUnitsNonAscii();
    EscapeUnitsMiddle();
    EscapeUnitsBack();
  }

  lemma EscapedLength()
    ensures |SampleEscaped| < BufferSize
  {
    FlattenBound(EscapedPieces, 8);
  }

  /** Escaping the bytes read: `.` and `\` get a backslash, the bytes
      outside printable ASCII become decimal escapes. */
  lemma EscapeSample()
    ensures Escape(SampleRaw) == SampleEscaped && |SampleEscaped| < BufferSize
  {
    EscapeUnits();
    EscapeFlatten(RawPieces, EscapedPieces);
    EscapedLength();
  }

  /** Reading the escaped text back gives the same bytes, up to the end of the text. */
  lemma UnescapeEscapedSample(e: Text)
    requires e == Escape(SampleRaw)
    ensures e == SampleEscaped
    ensures ReadLabel(e, 0, BufferSize) == Ok(Cut(SampleRaw, |e|, false))
  {
    EscapeSample();
    RawLength();
    ReadEscapedWhole(e, SampleRaw, BufferSize);
  }

  /** The test's sequence on buffers: read the first label of the sample,
      escape the bytes read into a 256-byte buffer, and read that back. */
  method EscapeSampleRoundTrip() returns (first: Result<Cut>, escaped: Text, again: Result<Cut>)
    ensures first == Ok(Cut(SampleRaw, |SampleLabel| + 1, true))
    ensures escaped == SampleEscaped
    ensures again == Ok(Cut(SampleRaw, |SampleEscaped|, false))
  {
    first := UnescapeLabel(Sample, 0, BufferSize);
    UnescapeSample();
    var raw := first.value.bytes;
    var w := new Writer(BufferSize);
    EscapeSample();
    var ok := EscapeLabel(raw, w);
    escaped := w.Written();
    UnescapeEscapedSample(escaped);
    again := UnescapeLabel(escaped, 0, BufferSize);
  }
}
