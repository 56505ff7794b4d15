/** The record-level reading of PDB files in `PDBParser` of ihm/metadata.py:
    which dialect the first line announces, the fixed columns read from that
    line, and the TITLE and HELIX records gathered from the lines after it.

    A file is the sequence of its lines, each with the line terminator it
    had in the file, as Python's line iteration yields them. */
module PdbRecords {
  import opened Wrappers
  import opened Text
  import opened Provenance

  const HeaderPrefix: string := "HEADER"
  const DerivedPdbPrefix: string := "EXPDTA    DERIVED FROM PDB:"
  const DerivedModelPrefix: string := "EXPDTA    DERIVED FROM COMPARATIVE MODEL, DOI:"
  const ModellerPrefix: string := "EXPDTA    THEORETICAL MODEL, MODELLER"
  const PhyrePrefix: string := "REMARK  99  Chain ID :"

  /** The kinds of file `parse_file` tells apart by their first line. */
  datatype Dialect =
    | OfficialEntry     // a file as distributed by the PDB
    | DerivedFromPdb    // locally modified from a PDB entry
    | DerivedFromModel  // locally modified from a published comparative model
    | ModellerModel     // written by MODELLER
    | PhyreModel        // written by Phyre2
    | UnknownModel      // anything else, taken to be a comparative model

  /** Two prefixes that differ at some position never both start a line. */
  lemma DifferAt(line: string, p: string, q: string, k: nat)
    requires k < |p| && k < |q| && p[k] != q[k]
    ensures !(StartsWith(line, p) && StartsWith(line, q))
  {
  }

  /** No line starts with two of the dialect prefixes. */
  lemma PrefixesExclusive(line: string)
    ensures StartsWith(line, HeaderPrefix) ==>
      !StartsWith(line, DerivedPdbPrefix) && !StartsWith(line, DerivedModelPrefix)
      && !StartsWith(line, ModellerPrefix) && !StartsWith(line, PhyrePrefix)
    ensures StartsWith(line, DerivedPdbPrefix) ==>
      !StartsWith(line, DerivedModelPrefix) && !StartsWith(line, ModellerPrefix)
      && !StartsWith(line, PhyrePrefix)
    ensures StartsWith(line, DerivedModelPrefix) ==>
      !StartsWith(line, ModellerPrefix) && !StartsWith(line, PhyrePrefix)
    ensures StartsWith(line, ModellerPrefix) ==> !StartsWith(line, PhyrePrefix)
  {
    DifferAt(line, HeaderPrefix, DerivedPdbPrefix, 0);
    DifferAt(line, HeaderPrefix, DerivedModelPrefix, 0);
    DifferAt(line, HeaderPrefix, ModellerPrefix, 0);
    DifferAt(line, HeaderPrefix, PhyrePrefix, 0);
    DifferAt(line, DerivedPdbPrefix, DerivedModelPrefix, 23);
    DifferAt(line, DerivedPdbPrefix, ModellerPrefix, 10);
    DifferAt(line, DerivedPdbPrefix, PhyrePrefix, 0);
    DifferAt(line, DerivedModelPrefix, ModellerPrefix, 10);
    DifferAt(line, DerivedModelPrefix, PhyrePrefix, 0);
    DifferAt(line, ModellerPrefix, PhyrePrefix, 0);
  }

  /** The dispatch of `parse_file`: the prefixes are tried in a fixed order
      and the first that the line starts with decides. Since no line starts
      with two of them, each dialect is chosen exactly when the line starts
      with its own prefix, whatever the order. */
  function Classify(firstLine: string): (d: Dialect)
    ensures d == OfficialEntry <==> StartsWith(firstLine, HeaderPrefix)
    ensures d == DerivedFromPdb <==> StartsWith(firstLine, DerivedPdbPrefix)
    ensures d == DerivedFromModel <==> StartsWith(firstLine, DerivedModelPrefix)
    ensures d == ModellerModel <==> StartsWith(firstLine, ModellerPrefix)
    ensures d == PhyreModel <==> StartsWith(firstLine, PhyrePrefix)
    ensures d == UnknownModel <==>
      !StartsWith(firstLine, HeaderPrefix) && !StartsWith(firstLine, DerivedPdbPrefix)
      && !StartsWith(firstLine, DerivedModelPrefix) && !StartsWith(firstLine, ModellerPrefix)
      && !StartsWith(firstLine, PhyrePrefix)
  {
    PrefixesExclusive(firstLine);
    if StartsWith(firstLine, HeaderPrefix) then OfficialEntry
    else if StartsWith(firstLine, DerivedPdbPrefix) then DerivedFromPdb
    else if StartsWith(firstLine, DerivedModelPrefix) then DerivedFromModel
    else if StartsWith(firstLine, ModellerPrefix) then ModellerModel
    else if StartsWith(firstLine, PhyrePrefix) then PhyreModel
    else UnknownModel
  }

  // ---------------------------------------------------------------------
  // Fields of the first line

  /** The deposition date of a HEADER record, columns 51-59 (`[50:59]`). */
  function HeaderVersion(firstLine: string): (v: string)
    ensures |v| <= 9
    ensures v != [] ==> !IsSpace(v[0]) && !IsSpace(v[|v| - 1])
    ensures |firstLine| >= 59 && !IsSpace(firstLine[50]) && !IsSpace(firstLine[58]) ==> v == firstLine[50..59]
  {
    StripTrims(Slice(firstLine, 50, 59));
    Strip(Slice(firstLine, 50, 59))
  }

  /** The PDB identifier of a HEADER record, columns 63-66 (`[62:66]`). */
  function HeaderCode(firstLine: string): (c: string)
    ensures |c| <= 4
    ensures c != [] ==> !IsSpace(c[0]) && !IsSpace(c[|c| - 1])
    ensures |firstLine| >= 66 && !IsSpace(firstLine[62]) && !IsSpace(firstLine[65]) ==> c == firstLine[62..66]
  {
    StripTrims(Slice(firstLine, 62, 66));
    Strip(Slice(firstLine, 62, 66))
  }

  /** The PDB code after `DERIVED FROM PDB:` (`[27:]`). */
  function DerivedPdbCode(firstLine: string): string {
    Strip(From(firstLine, |DerivedPdbPrefix|))
  }

  /** The DOI after `DERIVED FROM COMPARATIVE MODEL, DOI:` (`[46:]`). */
  function DerivedModelDoi(firstLine: string): string {
    Strip(From(firstLine, |DerivedModelPrefix|))
  }

  /** What MODELLER's EXPDTA record gives as its version (`[38:]`, split at
      the first space into the version and the rest of the line). */
  function ModellerVersion(firstLine: string): seq<string> {
    SplitOnce(From(firstLine, 38), ' ')
  }

  /** A HEADER record laid out by the wwPDB format: the classification in
      columns 11-50, the deposition date in 51-59 and the identifier in
      63-66. */
  function FormatHeader(classification: string, date: string, code: string, tail: string): string
    requires |classification| == 40 && |date| == 9 && |code| == 4
  {
    HeaderPrefix + "    " + classification + date + "   " + code + tail
  }

  /** A HEADER record is recognised, and its date and identifier are read
      back from their columns (less any padding), whatever the other
      columns hold. */
  lemma HeaderRoundTrip(classification: string, date: string, code: string, tail: string)
    requires |classification| == 40 && |date| == 9 && |code| == 4
    ensures var line := FormatHeader(classification, date, code, tail);
      && Classify(line) == OfficialEntry
      && HeaderVersion(line) == Strip(date)
      && HeaderCode(line) == Strip(code)
  {
    var start := HeaderPrefix + "    ";
    var beforeDate := start + classification;
    var withDate := beforeDate + date;
    var beforeCode := withDate + "   ";
    var withCode := beforeCode + code;
    var line := withCode + tail;
    assert line == FormatHeader(classification, date, code, tail);
    SliceConcatLeft(withCode, tail, 0, 6);
    SliceConcatLeft(beforeCode, code, 0, 6);
    SliceConcatLeft(withDate, "   ", 0, 6);
    SliceConcatLeft(beforeDate, date, 0, 6);
    SliceConcatLeft(start, classification, 0, 6);
    SliceConcatLeft(HeaderPrefix, "    ", 0, 6);
    assert line[..6] == HeaderPrefix;
    SliceConcatLeft(withCode, tail, 50, 59);
    SliceConcatLeft(beforeCode, code, 50, 59);
    SliceConcatLeft(withDate, "   ", 50, 59);
    SliceConcatRight(beforeDate, date);
    assert line[50..59] == date;
    SliceConcatLeft(withCode, tail, 62, 66);
    SliceConcatRight(beforeCode, code);
    assert line[62..66] == code;
  }

  /** The whitespace-free value after a prefix and any amount of padding is
      read back exactly. */
  lemma ValueAfterPrefix(prefix: string, pad: string, value: string, tail: string)
    requires forall k :: 0 <= k < |pad| ==> IsSpace(pad[k])
    requires forall k :: 0 <= k < |tail| ==> IsSpace(tail[k])
    requires value != [] ==> !IsSpace(value[0]) && !IsSpace(value[|value| - 1])
    ensures Strip(From(prefix + pad + value + tail, |prefix|)) == value
  {
    assert From(prefix + pad + value + tail, |prefix|) == pad + value + tail;
    StripPadded(pad, value, tail);
  }

  /** `DERIVED FROM PDB:` followed by a code: the line is recognised and
      the code read back. */
  lemma DerivedPdbRoundTrip(pad: string, code: string, tail: string)
    requires forall k :: 0 <= k < |pad| ==> IsSpace(pad[k])
    requires forall k :: 0 <= k < |tail| ==> IsSpace(tail[k])
    requires code != [] && !IsSpace(code[0]) && !IsSpace(code[|code| - 1])
    ensures Classify(DerivedPdbPrefix + pad + code + tail) == DerivedFromPdb
    ensures DerivedPdbCode(DerivedPdbPrefix + pad + code + tail) == code
  {
    var line := DerivedPdbPrefix + pad + code + tail;
    assert line[..|DerivedPdbPrefix|] == DerivedPdbPrefix;
    ValueAfterPrefix(DerivedPdbPrefix, pad, code, tail);
  }

  /** `DERIVED FROM COMPARATIVE MODEL, DOI:` followed by a DOI: the line is
      recognised and the DOI read back. */
  lemma DerivedModelRoundTrip(pad: string, doi: string, tail: string)
    requires forall k :: 0 <= k < |pad| ==> IsSpace(pad[k])
    requires forall k :: 0 <= k < |tail| ==> IsSpace(tail[k])
    requires doi != [] && !IsSpace(doi[0]) && !IsSpace(doi[|doi| - 1])
    ensures Classify(DerivedModelPrefix + pad + doi + tail) == DerivedFromModel
    ensures DerivedModelDoi(DerivedModelPrefix + pad + doi + tail) == doi
  {
    var line := DerivedModelPrefix + pad + doi + tail;
    assert line[..|DerivedModelPrefix|] == DerivedModelPrefix;
    ValueAfterPrefix(DerivedModelPrefix, pad, doi, tail);
  }

  /** MODELLER writes `EXPDTA    THEORETICAL MODEL, MODELLER <version>
      <date>`: the version comes back as the first element and everything
      after the following space, line terminator included, as the second. */
  lemma ModellerRoundTrip(version: string, rest: string)
    requires ' ' !in version
    ensures Classify(ModellerPrefix + " " + version + " " + rest) == ModellerModel
    ensures ModellerVersion(ModellerPrefix + " " + version + " " + rest) == [version, rest]
  {
    var line := ModellerPrefix + " " + version + " " + rest;
    assert line[..|ModellerPrefix|] == ModellerPrefix;
    assert From(line, 38) == version + [' '] + rest;
    var r := SplitOnce(version + [' '] + rest, ' ');
    assert |r| == 2;
    SplitOnceAtFirst(version, rest);
  }

  /** `split(' ', 1)` cuts at the first space. */
  lemma {:induction false} SplitOnceAtFirst(before: string, after: string)
    requires ' ' !in before
    ensures SplitOnce(before + [' '] + after, ' ') == [before, after]
    decreases |before|
  {
    var s := before + [' '] + after;
    if before == [] {
      assert s == [' '] + after;
    } else {
      assert s[1..] == before[1..] + [' '] + after;
      SplitOnceAtFirst(before[1..], after);
      assert s[0] == before[0];
      assert [s[0]] + before[1..] == before;
    }
  }

  // ---------------------------------------------------------------------
  // TITLE, HELIX and ATOM records

  predicate IsTitle(line: string) { StartsWith(line, "TITLE") }
  predicate IsHelix(line: string) { StartsWith(line, "HELIX") }
  predicate IsAtom(line: string) { StartsWith(line, "ATOM") }

  /** A line is at most one of a TITLE, a HELIX and an ATOM record. */
  lemma RecordKindsExclusive(line: string)
    ensures IsTitle(line) ==> !IsHelix(line) && !IsAtom(line)
    ensures IsHelix(line) ==> !IsAtom(line)
  {
    DifferAt(line, "TITLE", "HELIX", 0);
    DifferAt(line, "TITLE", "ATOM", 0);
    DifferAt(line, "HELIX", "ATOM", 0);
  }

  /** The text of one TITLE record: column 11 onward, trailing whitespace
      (and the line terminator) removed. */
  function TitlePart(line: string): string {
    RStrip(From(line, 10))
  }

  /** The title of a file: the TITLE texts of its lines, concatenated in
      order with nothing between them. */
  function TitleText(lines: seq<string>): string {
    if lines == [] then ""
    else
      var last := lines[|lines| - 1];
      TitleText(lines[..|lines| - 1]) + (if IsTitle(last) then TitlePart(last) else "")
  }

  /** The title of two runs of lines is the title of the first followed by
      the title of the second. */
  lemma {:induction false} TitleTextConcat(a: seq<string>, b: seq<string>)
    ensures TitleText(a + b) == TitleText(a) + TitleText(b)
    decreases |b|
  {
    if b == [] {
      assert a + b == a;
    } else {
      var b', last := b[..|b| - 1], b[|b| - 1];
      var part := if IsTitle(last) then TitlePart(last) else "";
      assert (a + b)[..|a + b| - 1] == a + b';
      assert (a + b)[|a + b| - 1] == last;
      TitleTextConcat(a, b');
      ConcatAssoc(TitleText(a), TitleText(b'), part);
      assert TitleText(a + b) == TitleText(a + b') + part;
    }
  }

  /** The title is empty exactly when every TITLE record's text is. */
  lemma {:induction false} TitleTextEmpty(lines: seq<string>)
    ensures TitleText(lines) == "" <==>
      forall k :: 0 <= k < |lines| && IsTitle(lines[k]) ==> TitlePart(lines[k]) == ""
    decreases |lines|
  {
    if lines != [] {
      var init := lines[..|lines| - 1];
      TitleTextEmpty(init);
      assert forall k :: 0 <= k < |init| ==> init[k] == lines[k];
    }
  }

  /** A TITLE record holding `text` from column 11 contributes exactly
      `text`, provided the text does not end in whitespace. */
  lemma TitleRecordText(text: string, eol: string)
    requires text == [] || !IsSpace(text[|text| - 1])
    requires forall k :: 0 <= k < |eol| ==> IsSpace(eol[k])
    ensures TitleText(["TITLE     " + text + eol]) == text
  {
    var line := "TITLE     " + text + eol;
    var lines: seq<string> := [line];
    assert lines[..|lines| - 1] == [];
    assert line[..5] == "TITLE";
    assert From(line, 10) == text + eol;
    TrimEndPadded(text, eol);
  }

  /** The HELIX records of the lines, in order. */
  function HelixRecords(lines: seq<string>): (r: seq<MetadataRecord>)
    ensures |r| <= |lines|
    ensures forall k :: 0 <= k < |r| ==> IsHelix(r[k].line)
  {
    if lines == [] then []
    else
      var last := lines[|lines| - 1];
      HelixRecords(lines[..|lines| - 1]) + (if IsHelix(last) then [Helix(last)] else [])
  }

  /** One record per HELIX line, in the order of the lines. */
  lemma {:induction false} HelixRecordsConcat(a: seq<string>, b: seq<string>)
    ensures HelixRecords(a + b) == HelixRecords(a) + HelixRecords(b)
    decreases |b|
  {
    if b == [] {
      assert a + b == a;
    } else {
      var b' := b[..|b| - 1];
      assert (a + b)[..|a + b| - 1] == a + b';
      HelixRecordsConcat(a, b');
    }
  }

  /** A single line yields one record exactly when it is a HELIX line, and
      that record keeps the line. */
  lemma HelixRecordsOne(line: string)
    ensures HelixRecords([line]) == if IsHelix(line) then [Helix(line)] else []
  {
    var lines: seq<string> := [line];
    assert lines[..0] == [];
  }

  /** Every HELIX line yields its record: the records of the lines before
      it, then its own, then those of the lines after it. */
  lemma HelixLineRecorded(lines: seq<string>, k: nat)
    requires k < |lines| && IsHelix(lines[k])
    ensures HelixRecords(lines)
      == HelixRecords(lines[..k]) + [Helix(lines[k])] + HelixRecords(lines[k + 1..])
  {
    assert lines == lines[..k] + [lines[k]] + lines[k + 1..];
    HelixRecordsConcat(lines[..k] + [lines[k]], lines[k + 1..]);
    HelixRecordsConcat(lines[..k], [lines[k]]);
    HelixRecordsOne(lines[k]);
  }

  /** The lines before the first ATOM record: the part of a file that
      `_parse_details` and `_get_templates` read. */
  function HeaderLines(lines: seq<string>): (r: seq<string>)
    ensures r <= lines
    ensures forall k :: 0 <= k < |r| ==> !IsAtom(r[k])
    ensures |r| < |lines| ==> IsAtom(lines[|r|])
  {
    if lines == [] || IsAtom(lines[0]) then []
    else [lines[0]] + HeaderLines(lines[1..])
  }

  /** The header ends at the first ATOM line. */
  lemma HeaderLinesAt(lines: seq<string>, i: nat)
    requires i <= |lines|
    requires forall k :: 0 <= k < i ==> !IsAtom(lines[k])
    requires i < |lines| ==> IsAtom(lines[i])
    ensures HeaderLines(lines) == lines[..i]
  {
  }

  /** Nothing after the first ATOM line reaches the details. */
  lemma DetailsStopAtAtom(header: seq<string>, atom: string, body: seq<string>)
    requires forall k :: 0 <= k < |header| ==> !IsAtom(header[k])
    requires IsAtom(atom)
    ensures TitleText(HeaderLines(header + [atom] + body)) == TitleText(header)
  {
    var lines := header + [atom] + body;
    HeaderLinesAt(lines, |header|);
    assert lines[..|header|] == header;
  }

  /** `_parse_details`: the TITLE texts concatenated, reading up to the
      first ATOM line. */
  method ParseDetails(lines: seq<string>) returns (details: string)
    ensures details == TitleText(HeaderLines(lines))
  {
    details := "";
    var i := 0;
    while i < |lines|
      invariant i <= |lines|
      invariant forall k :: 0 <= k < i ==> !IsAtom(lines[k])
      invariant details == TitleText(lines[..i])
    {
      var line := lines[i];
      RecordsStep(lines, i);
      RecordKindsExclusive(line);
      if IsTitle(line) {
        details := details + TitlePart(line);
      } else if IsAtom(line) {
        break;
      }
      i := i + 1;
    }
    HeaderLinesAt(lines, i);
  }

  /** The details of an official entry: the title, or nothing when the
      title is empty. */
  function TitleDetails(lines: seq<string>): (d: Option<string>)
    ensures d.None? <==> forall k :: 0 <= k < |lines| && IsTitle(lines[k]) ==> TitlePart(lines[k]) == ""
    ensures d.Some? ==> d.value == TitleText(lines) && d.value != ""
  {
    TitleTextEmpty(lines);
    if TitleText(lines) == "" then None else Some(TitleText(lines))
  }

  /** Reading one more line extends the title by that line's TITLE text
      and the records by that line's HELIX record, if it has one. */
  lemma RecordsStep(lines: seq<string>, i: nat)
    requires i < |lines|
    ensures TitleText(lines[..i + 1]) ==
      TitleText(lines[..i]) + (if IsTitle(lines[i]) then TitlePart(lines[i]) else "")
    ensures HelixRecords(lines[..i + 1]) ==
      HelixRecords(lines[..i]) + (if IsHelix(lines[i]) && !IsTitle(lines[i]) then [Helix(lines[i])] else [])
  {
    assert lines[..i + 1][..i] == lines[..i];
    RecordKindsExclusive(lines[i]);
  }

  /** `_parse_pdb_records`: the deposition date of the first line, the
      details from every TITLE line after it, and one metadata record per
      HELIX line after it (the whole file is read; ATOM lines do not stop
      it). */
  method ParsePdbRecords(firstLine: string, rest: seq<string>)
    returns (version: string, details: Option<string>, metadata: seq<MetadataRecord>)
    ensures version == HeaderVersion(firstLine)
    ensures details == TitleDetails(rest)
    ensures metadata == HelixRecords(rest)
  {
    metadata := [];
    var title := "";
    var i := 0;
    while i < |rest|
      invariant i <= |rest|
      invariant title == TitleText(rest[..i])
      invariant metadata == HelixRecords(rest[..i])
    {
      var line := rest[i];
      RecordsStep(rest, i);
      if IsTitle(line) {
        title := title + TitlePart(line);
      } else if IsHelix(line) {
        metadata := metadata + [Helix(line)];
      }
      i := i + 1;
    }
    assert rest[..i] == rest;
    version := Strip(Slice(firstLine, 50, 59));
    details := if title != "" then Some(title) else None;
  }
}
