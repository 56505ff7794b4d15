/** `MRCParser` of ihm/metadata.py: finds the EMDB accession code that the
    EMDB deposition software writes into the text labels of an MRC2014
    density-map header, and builds the map's dataset from it.

    The file is a byte sequence. The label count (NLABL) is the 32-bit word at
    byte offset 220; the labels are 80-byte records from offset 224. Since the
    file does not say which byte order it uses, the word is read both ways and
    the smaller reading is taken. */
module Mrc {
  import opened Wrappers
  import opened Text
  import opened Provenance

  newtype byte = x: int | 0 <= x < 256

  const LabelCountOffset: nat := 220
  const LabelsOffset: nat := 224
  const LabelLength: nat := 80

  /** The description used when EMDB gives none, and for local maps. */
  const MapDetails := "Electron microscopy density map"

  /** `struct.unpack_from` fails when the file has fewer than four bytes at
      offset 220. */
  datatype MrcError = TruncatedHeader

  // ---------------------------------------------------------------------
  // The label-count word

  /** The unsigned value of four bytes, least significant first. */
  function U32LE(b0: byte, b1: byte, b2: byte, b3: byte): (u: nat)
    ensures u < 0x1_0000_0000
  {
    b0 as int + 256 * (b1 as int + 256 * (b2 as int + 256 * b3 as int))
  }

  /** Two's-complement reading of a 32-bit word (`struct` format `i`). */
  function Signed32(u: nat): (v: int)
    requires u < 0x1_0000_0000
    ensures -0x8000_0000 <= v < 0x8000_0000
    ensures v % 0x1_0000_0000 == u
  {
    if u < 0x8000_0000 then u else u - 0x1_0000_0000
  }

  /** `struct.unpack_from('<i', raw)`. */
  function ReadI32LE(raw: seq<byte>): int
    requires |raw| == 4
  {
    Signed32(U32LE(raw[0], raw[1], raw[2], raw[3]))
  }

  /** `struct.unpack_from('>i', raw)`. */
  function ReadI32BE(raw: seq<byte>): int
    requires |raw| == 4
  {
    Signed32(U32LE(raw[3], raw[2], raw[1], raw[0]))
  }

  /** The four bytes `fh.read(4)` returns after `fh.seek(220)`. */
  function CountWord(file: seq<byte>): (raw: seq<byte>)
    ensures |raw| == 4 <==> |file| >= LabelsOffset
    ensures |raw| == 4 ==> raw == file[LabelCountOffset..LabelsOffset]
  {
    Slice(file, LabelCountOffset, LabelsOffset)
  }

  /** The label count the parser uses: the smaller of the big-endian and the
      little-endian reading of the word, or the unpacking error. */
  function LabelCount(file: seq<byte>): (r: Result<int, MrcError>)
    ensures r.Err? <==> |file| < LabelsOffset
    ensures r.Ok? ==> var raw := CountWord(file);
      r.value <= ReadI32BE(raw) && r.value <= ReadI32LE(raw)
      && (r.value == ReadI32BE(raw) || r.value == ReadI32LE(raw))
  {
    var raw := CountWord(file);
    if |raw| < 4 then Err(TruncatedHeader)
    else
      var big := ReadI32BE(raw);
      var little := ReadI32LE(raw);
      Ok(if big < little then big else little)
  }

  /** The number of labels `range(num_labels)` visits. */
  function LabelsExamined(count: int): nat {
    if count < 0 then 0 else count
  }

  /** Four bytes that spell `n` in base 256, least significant first:
      the word as a little-endian writer stores `n`. */
  predicate SpellsLE(raw: seq<byte>, n: nat) {
    |raw| == 4
    && raw[0] as int == n % 256 && raw[1] as int == n / 0x100 % 256
    && raw[2] as int == n / 0x1_0000 % 256 && raw[3] as int == n / 0x100_0000
  }

  /** The same bytes in the opposite order: the word as a big-endian writer
      stores `n`. */
  predicate SpellsBE(raw: seq<byte>, n: nat) {
    |raw| == 4 && SpellsLE([raw[3], raw[2], raw[1], raw[0]], n)
  }

  lemma DivMod256(x: nat)
    ensures x == x % 256 + 256 * (x / 256)
    ensures 0 <= x % 256 < 256
  {
  }

  lemma {:induction false} Base256Digits(n: nat)
    ensures n == n % 256 + 256 * (n / 0x100 % 256 + 256 * (n / 0x1_0000 % 256 + 256 * (n / 0x100_0000)))
  {
    var q1, q2 := n / 256, n / 256 / 256;
    DivMod256(n);
    DivMod256(q1);
    DivMod256(q2);
    assert q1 == n / 0x100;
    assert q2 == n / 0x1_0000;
    assert q2 / 256 == n / 0x100_0000;
  }

  /** Reading a word in the byte order it was written in gives the
      two's-complement value of what was written. */
  lemma EncodeRoundTrip(raw: seq<byte>, n: nat)
    requires n < 0x1_0000_0000
    ensures SpellsLE(raw, n) ==> ReadI32LE(raw) == Signed32(n)
    ensures SpellsBE(raw, n) ==> ReadI32BE(raw) == Signed32(n)
  {
    Base256Digits(n);
  }

  /** The heuristic does not depend on the file's byte order: swapping the
      four bytes of the word leaves the label count unchanged. */
  lemma LabelCountByteOrderBlind(file: seq<byte>, swapped: seq<byte>)
    requires |file| >= LabelsOffset && |swapped| == |file|
    requires forall k :: 0 <= k < |file| && !(LabelCountOffset <= k < LabelsOffset) ==> swapped[k] == file[k]
    requires swapped[220] == file[223] && swapped[221] == file[222]
    requires swapped[222] == file[221] && swapped[223] == file[220]
    ensures LabelCount(swapped) == LabelCount(file)
  {
    var raw, raw' := CountWord(file), CountWord(swapped);
    assert raw'[0] == raw[3] && raw'[1] == raw[2] && raw'[2] == raw[1] && raw'[3] == raw[0];
    assert ReadI32BE(raw') == ReadI32LE(raw);
    assert ReadI32LE(raw') == ReadI32BE(raw);
  }

  /** A count of at most 127 is recovered whichever byte order wrote it. */
  lemma SmallCountRecovered(file: seq<byte>, n: nat)
    requires n <= 127 && |file| >= LabelsOffset
    requires SpellsLE(CountWord(file), n) || SpellsBE(CountWord(file), n)
    ensures LabelCount(file) == Ok(n)
  {
    var raw := CountWord(file);
    EncodeRoundTrip(raw, n);
    if SpellsLE(raw, n) {
      assert raw[0] as int == n && raw[1] == 0 && raw[2] == 0 && raw[3] == 0;
      assert ReadI32BE(raw) == n * 0x100_0000;
    } else {
      assert raw[3] as int == n && raw[2] == 0 && raw[1] == 0 && raw[0] == 0;
      assert ReadI32LE(raw) == n * 0x100_0000;
    }
  }

  /** The limit of the heuristic: a count of 128 written little-endian
      reads as -2^31 big-endian, so the smaller reading is negative and no
      label is examined. */
  lemma Count128LittleEndianReadsNegative(file: seq<byte>)
    requires |file| >= LabelsOffset && SpellsLE(CountWord(file), 128)
    ensures LabelCount(file) == Ok(-0x8000_0000)
    ensures LabelsExamined(LabelCount(file).value) == 0
  {
    var raw := CountWord(file);
    EncodeRoundTrip(raw, 128);
    assert raw[0] as int == 128 && raw[1] == 0 && raw[2] == 0 && raw[3] == 0;
    assert U32LE(raw[3], raw[2], raw[1], raw[0]) == 0x8000_0000;
  }

  // ---------------------------------------------------------------------
  // The labels and the accession pattern

  /** What the i-th `fh.read(80)` returns: the next 80 bytes, fewer at the
      end of the file and none past it. */
  function Label(file: seq<byte>, i: nat): (chunk: seq<byte>)
    ensures |chunk| <= LabelLength
    ensures LabelsOffset + 80 * i >= |file| ==> chunk == []
  {
    Slice(file, LabelsOffset + 80 * i, LabelsOffset + 80 * i + LabelLength)
  }

  /** The bytes `bytes.strip()` removes. */
  predicate IsAsciiSpaceByte(b: byte) {
    b == 0x20 || (0x09 <= b <= 0x0D)
  }

  /** Each byte as the character with that code. */
  function Latin1(b: seq<byte>): (s: string)
    ensures |s| == |b|
    ensures forall k :: 0 <= k < |b| ==> s[k] as int == b[k] as int
  {
    seq(|b|, k requires 0 <= k < |b| => (b[k] as int) as char)
  }

  const Marker := "EMDATABANK.org"
  const CodePrefix := "EMD-"

  /** `EMDATABANK\.org` matches at `i`. */
  predicate MarkerAt(s: string, i: nat) {
    i + |Marker| <= |s| && s[i..i + |Marker|] == Marker
  }

  /** `EMD\-\d` matches at `p` (a byte pattern's `\d` is ASCII). */
  predicate CodeAt(s: string, p: nat) {
    p + 5 <= |s| && s[p..p + 4] == CodePrefix && IsAsciiDigit(s[p + 4])
  }

  /** The length of the run of digits at `j`. */
  function DigitRun(s: string, j: nat): (n: nat)
    requires j <= |s|
    ensures j + n <= |s|
    ensures forall k :: j <= k < j + n ==> IsAsciiDigit(s[k])
    ensures j + n < |s| ==> !IsAsciiDigit(s[j + n])
    decreases |s| - j
  {
    if j < |s| && IsAsciiDigit(s[j]) then 1 + DigitRun(s, j + 1) else 0
  }

  /** Group 1 of a match whose code starts at `p`: `EMD-` and every digit
      that follows (`\d+` is greedy). */
  function CodeFrom(s: string, p: nat): (c: string)
    requires CodeAt(s, p)
    ensures |c| >= 5 && c[..4] == CodePrefix
    ensures forall k :: 4 <= k < |c| ==> IsAsciiDigit(c[k])
    ensures p + |c| <= |s| && s[p..p + |c|] == c
    ensures p + |c| < |s| ==> !IsAsciiDigit(s[p + |c|])
  {
    s[p..p + 4 + DigitRun(s, p + 4)]
  }

  /** The first newline at or after `k`, or the end: how far `.*` reaches. */
  function LineEnd(s: string, k: nat): (e: nat)
    requires k <= |s|
    ensures k <= e <= |s|
    ensures e < |s| ==> s[e] == '\n'
    ensures forall j :: k <= j < e ==> s[j] != '\n'
    decreases |s| - k
  {
    if k == |s| || s[k] == '\n' then k else LineEnd(s, k + 1)
  }

  /** The last position in `[lo, hi)` where a code starts. */
  function LastCodeStart(s: string, lo: nat, hi: nat): (r: Option<nat>)
    ensures r.Some? ==> lo <= r.value < hi && CodeAt(s, r.value)
    ensures r.Some? ==> forall q :: r.value < q < hi ==> !CodeAt(s, q)
    ensures r.None? ==> forall q :: lo <= q < hi ==> !CodeAt(s, q)
    decreases hi
  {
    if hi <= lo then None
    else if CodeAt(s, hi - 1) then Some(hi - 1)
    else LastCodeStart(s, lo, hi - 1)
  }

  /** `EMDATABANK\.org.*(EMD\-\d+)` matches with the marker at `i` and the
      group starting at `p`: `.*` spans the text between them, which holds
      no newline. */
  predicate RegexMatch(s: string, i: nat, p: nat) {
    MarkerAt(s, i) && i + |Marker| <= p && CodeAt(s, p)
    && forall k :: i + |Marker| <= k < p ==> s[k] != '\n'
  }

  ghost predicate NoMatchAt(s: string, i: nat) {
    forall p :: !RegexMatch(s, i, p)
  }

  /** The match `re.search` reports when searching from `lo`: the leftmost
      marker that starts a match, and for it the largest `p`, since `.*` is
      greedy. */
  ghost predicate LeftmostGreedy(s: string, lo: nat, i: nat, p: nat) {
    lo <= i && RegexMatch(s, i, p)
    && (forall i' :: lo <= i' < i ==> NoMatchAt(s, i'))
    && (forall p' :: p < p' ==> !RegexMatch(s, i, p'))
  }

  /** A match at `i` lies within the line that the marker starts. */
  lemma MatchWithinLine(s: string, i: nat, p: nat)
    requires RegexMatch(s, i, p)
    ensures p < LineEnd(s, i + |Marker|)
  {
  }

  /** When no code starts between the marker at `i` and the end of its line,
      nothing matches at `i`. */
  lemma NoMatchWithoutCode(s: string, i: nat)
    requires i + |Marker| <= |s|
    requires !MarkerAt(s, i) || LastCodeStart(s, i + |Marker|, LineEnd(s, i + |Marker|)).None?
    ensures NoMatchAt(s, i)
  {
    forall p | RegexMatch(s, i, p) ensures false {
      MatchWithinLine(s, i, p);
    }
  }

  /** The last code start on the marker's line is the greedy match. */
  lemma LastCodeIsGreedy(s: string, i: nat, p: nat)
    requires MarkerAt(s, i)
    requires LastCodeStart(s, i + |Marker|, LineEnd(s, i + |Marker|)) == Some(p)
    ensures RegexMatch(s, i, p)
    ensures forall p' :: p < p' ==> !RegexMatch(s, i, p')
  {
    forall p' | p < p' && RegexMatch(s, i, p') ensures false {
      MatchWithinLine(s, i, p');
    }
  }

  /** `re.search` from position `i` onwards, group 1: the first marker
      position that has a code on its line, and the last such code. */
  function SearchFrom(s: string, i: nat): Option<string>
    decreases |s| - i
  {
    if i + |Marker| > |s| then None
    else
      var found := if MarkerAt(s, i) then LastCodeStart(s, i + |Marker|, LineEnd(s, i + |Marker|)) else None;
      if found.Some? then Some(CodeFrom(s, found.value))
      else SearchFrom(s, i + 1)
  }

  /** `SearchFrom` finds exactly what the regular expression's search does:
      nothing when no position from `i` on starts a match, and otherwise the
      group of the leftmost, greedy match. */
  lemma {:induction false} SearchFromIsLeftmostGreedy(s: string, i: nat)
    ensures SearchFrom(s, i).None? <==> forall j :: i <= j ==> NoMatchAt(s, j)
    ensures SearchFrom(s, i).Some? ==>
      exists j, p :: LeftmostGreedy(s, i, j, p) && SearchFrom(s, i).value == CodeFrom(s, p)
    decreases |s| - i
  {
    if i + |Marker| > |s| {
      assert forall j :: i <= j ==> NoMatchAt(s, j);
    } else {
      var found := if MarkerAt(s, i) then LastCodeStart(s, i + |Marker|, LineEnd(s, i + |Marker|)) else None;
      if found.Some? {
        LastCodeIsGreedy(s, i, found.value);
        assert LeftmostGreedy(s, i, i, found.value);
        assert !NoMatchAt(s, i);
      } else {
        NoMatchWithoutCode(s, i);
        SearchFromIsLeftmostGreedy(s, i + 1);
        if SearchFrom(s, i + 1).Some? {
          var j, p :| LeftmostGreedy(s, i + 1, j, p) && SearchFrom(s, i + 1).value == CodeFrom(s, p);
          assert LeftmostGreedy(s, i, j, p);
          assert !NoMatchAt(s, j);
        } else {
          assert forall j :: i <= j ==> NoMatchAt(s, j) by {
            forall j | i <= j ensures NoMatchAt(s, j) {
              if j > i {
                assert i + 1 <= j;
              }
            }
          }
        }
      }
    }
  }

  /** `re.search(b'EMDATABANK\.org.*(EMD\-\d+)', label)`, group 1 decoded. */
  function FindEmd(text: seq<byte>): Option<string> {
    SearchFrom(Latin1(text), 0)
  }

  /** A code found has the shape `EMD-<digits>`. */
  lemma FindEmdShape(text: seq<byte>)
    ensures FindEmd(text).Some? ==> |FindEmd(text).value| >= 5 && FindEmd(text).value[..4] == CodePrefix
    ensures FindEmd(text).Some? ==> forall k :: 4 <= k < |FindEmd(text).value| ==> IsAsciiDigit(FindEmd(text).value[k])
  {
    var s := Latin1(text);
    SearchFromIsLeftmostGreedy(s, 0);
    if FindEmd(text).Some? {
      var j, p :| LeftmostGreedy(s, 0, j, p) && FindEmd(text).value == CodeFrom(s, p);
    }
  }

  /** `bytes.strip()`. */
  function StripBytes(b: seq<byte>): seq<byte> {
    var e := SpaceTailStart(b, |b|);
    b[SpaceHeadEnd(b, 0, e)..e]
  }

  /** `bytes.strip()` keeps one stretch of the bytes: only whitespace lies
      before and after it, and it neither starts nor ends with whitespace. */
  lemma StripBytesTrims(b: seq<byte>)
    ensures var r := StripBytes(b);
      && (r != [] ==> !IsAsciiSpaceByte(r[0]) && !IsAsciiSpaceByte(r[|r| - 1]))
      && exists i ::
           && 0 <= i <= |b| - |r| && b[i..][..|r|] == r
           && (forall k :: 0 <= k < i ==> IsAsciiSpaceByte(b[k]))
           && (forall k :: i + |r| <= k < |b| ==> IsAsciiSpaceByte(b[k]))
  {
    var e := SpaceTailStart(b, |b|);
    var i := SpaceHeadEnd(b, 0, e);
    assert b[i..][..e - i] == b[i..e];
  }

  function SpaceTailStart(b: seq<byte>, e: nat): (r: nat)
    requires e <= |b|
    ensures r <= e
    ensures forall k :: r <= k < e ==> IsAsciiSpaceByte(b[k])
    ensures r > 0 ==> !IsAsciiSpaceByte(b[r - 1])
  {
    if e > 0 && IsAsciiSpaceByte(b[e - 1]) then SpaceTailStart(b, e - 1) else e
  }

  function SpaceHeadEnd(b: seq<byte>, i: nat, e: nat): (r: nat)
    requires i <= e <= |b|
    ensures i <= r <= e
    ensures forall k :: i <= k < r ==> IsAsciiSpaceByte(b[k])
    ensures r < e ==> !IsAsciiSpaceByte(b[r])
    decreases e - i
  {
    if i < e && IsAsciiSpaceByte(b[i]) then SpaceHeadEnd(b, i + 1, e) else i
  }

  /** `fh.read(80).strip()` searched for the accession. */
  function LabelEmd(file: seq<byte>, i: nat): Option<string> {
    FindEmd(StripBytes(Label(file, i)))
  }

  /** The search result of every label, by index. */
  function LabelFinder(file: seq<byte>): nat -> Option<string> {
    (k: nat) => LabelEmd(file, k)
  }

  /** The first result among `f(i)`, ..., `f(n - 1)` that is not `None`: a
      loop over `range(i, n)` that returns on the first hit. */
  function FirstFound<T>(f: nat -> Option<T>, i: nat, n: nat): Option<T>
    decreases n - i
  {
    if i >= n then None
    else if f(i).Some? then f(i)
    else FirstFound(f, i + 1, n)
  }

  /** `FirstFound` returns the first hit in `[i, n)`, and nothing exactly
      when there is no hit there. */
  lemma {:induction false} FirstFoundIsFirst<T>(f: nat -> Option<T>, i: nat, n: nat)
    ensures FirstFound(f, i, n).None? <==> forall k :: i <= k < n ==> f(k).None?
    ensures FirstFound(f, i, n).Some? ==>
      exists k :: i <= k < n && f(k) == FirstFound(f, i, n) && forall j :: i <= j < k ==> f(j).None?
    decreases n - i
  {
    if i < n && f(i).None? {
      FirstFoundIsFirst(f, i + 1, n);
      if FirstFound(f, i + 1, n).Some? {
        var k :| i + 1 <= k < n && f(k) == FirstFound(f, i + 1, n)
          && forall j :: i + 1 <= j < k ==> f(j).None?;
        assert forall j :: i <= j < k ==> f(j).None?;
      }
    }
  }

  /** Only `f(i)`, ..., `f(n - 1)` are consulted. */
  lemma {:induction false} FirstFoundReadsRange<T>(f: nat -> Option<T>, g: nat -> Option<T>, i: nat, n: nat)
    requires forall k :: i <= k < n ==> f(k) == g(k)
    ensures FirstFound(f, i, n) == FirstFound(g, i, n)
    decreases n - i
  {
    if i < n {
      FirstFoundReadsRange(f, g, i + 1, n);
    }
  }

  /** A tail without hits can be dropped. */
  lemma {:induction false} FirstFoundSilentTail<T>(f: nat -> Option<T>, i: nat, m: nat, n: nat)
    requires i <= m <= n
    requires forall k :: m <= k < n ==> f(k).None?
    ensures FirstFound(f, i, n) == FirstFound(f, i, m)
    decreases m - i
  {
    if i < m {
      FirstFoundSilentTail(f, i + 1, m, n);
    } else {
      FirstFoundIsFirst(f, i, n);
    }
  }

  /** What `_get_emdb` returns for a file: the unpacking error, or the code
      of the first of the counted labels that matches, if any. */
  function EmdbCode(file: seq<byte>): Result<Option<string>, MrcError> {
    match LabelCount(file)
    case Err(e) => Err(e)
    case Ok(count) => Ok(FirstFound(LabelFinder(file), 0, LabelsExamined(count)))
  }

  /** `_get_emdb` returns the code of the first of the `max(count, 0)`
      counted labels that matches, and `None` when none of them does. */
  lemma EmdbCodeIsFirstMatch(file: seq<byte>)
    requires LabelCount(file).Ok?
    ensures var n := LabelsExamined(LabelCount(file).value);
      && (EmdbCode(file) == Ok(None) <==> forall k :: 0 <= k < n ==> LabelEmd(file, k).None?)
      && (EmdbCode(file).value.Some? ==>
            exists k :: 0 <= k < n && LabelEmd(file, k) == EmdbCode(file).value
              && forall j :: 0 <= j < k ==> LabelEmd(file, j).None?)
  {
    var f := LabelFinder(file);
    var n := LabelsExamined(LabelCount(file).value);
    FirstFoundIsFirst(f, 0, n);
    assert forall k :: f(k) == LabelEmd(file, k);
  }

  /** A code `_get_emdb` returns has the shape `EMD-<digits>`, so it is
      never empty. */
  lemma EmdbCodeShape(file: seq<byte>)
    requires EmdbCode(file).Ok? && EmdbCode(file).value.Some?
    ensures |EmdbCode(file).value.value| >= 5 && EmdbCode(file).value.value[..4] == CodePrefix
    ensures forall k :: 4 <= k < |EmdbCode(file).value.value| ==> IsAsciiDigit(EmdbCode(file).value.value[k])
  {
    EmdbCodeIsFirstMatch(file);
    var n := LabelsExamined(LabelCount(file).value);
    var k :| 0 <= k < n && LabelEmd(file, k) == EmdbCode(file).value;
    FindEmdShape(StripBytes(Label(file, k)));
  }

  /** Labels past the count are never looked at: two files with the same
      count and the same counted labels give the same answer, whatever
      follows. */
  lemma EmdbCodeReadsOnlyCountedLabels(file: seq<byte>, other: seq<byte>)
    requires LabelCount(file).Ok? && LabelCount(other) == LabelCount(file)
    requires forall k :: 0 <= k < LabelsExamined(LabelCount(file).value) ==> Label(other, k) == Label(file, k)
    ensures EmdbCode(other) == EmdbCode(file)
  {
    var n := LabelsExamined(LabelCount(file).value);
    FirstFoundReadsRange(LabelFinder(file), LabelFinder(other), 0, n);
  }

  /** A negative count (the smaller reading has its sign bit set) examines
      no label at all. */
  lemma NegativeCountFindsNothing(file: seq<byte>)
    requires LabelCount(file).Ok? && LabelCount(file).value < 0
    ensures EmdbCode(file) == Ok(None)
  {
  }

  /** The number of labels that begin before the end of the file. */
  function AvailableLabels(file: seq<byte>): nat {
    if |file| <= LabelsOffset then 0 else (|file| - LabelsOffset + 79) / 80
  }

  /** Reading past the end of the file returns no bytes, which cannot
      match, so a count larger than the file holds behaves as if clamped to
      the labels actually present. */
  lemma EmdbCodeClampedToFile(file: seq<byte>)
    requires LabelCount(file).Ok?
    ensures var n := LabelsExamined(LabelCount(file).value);
      var m := if n < AvailableLabels(file) then n else AvailableLabels(file);
      EmdbCode(file) == Ok(FirstFound(LabelFinder(file), 0, m))
  {
    var f := LabelFinder(file);
    var n := LabelsExamined(LabelCount(file).value);
    var a := AvailableLabels(file);
    if a < n {
      forall k | a <= k < n ensures f(k).None? {
        assert LabelsOffset + 80 * k >= |file|;
        assert Label(file, k) == [];
        assert StripBytes([]) == [];
      }
      FirstFoundSilentTail(f, 0, a, n);
    }
  }

  /** Where the file position is after the count word and `i` labels. */
  function PositionAfter(file: seq<byte>, i: nat): nat {
    var p := LabelsOffset + 80 * i;
    if p <= |file| then p else |file|
  }

  /** Reading 80 bytes at that position gives the next label and moves the
      position past it. */
  lemma {:induction false} ReadNextLabel(file: seq<byte>, i: nat)
    requires |file| >= LabelsOffset
    ensures Slice(file, PositionAfter(file, i), PositionAfter(file, i) + LabelLength) == Label(file, i)
    ensures PositionAfter(file, i) + |Label(file, i)| == PositionAfter(file, i + 1)
  {
    assert 80 * (i + 1) == 80 * i + 80;
  }

  /** One turn of the loop in `_get_emdb`: the bytes read at the current
      position are the next label, and its search result decides whether
      the scan ends there or goes on. */
  lemma ScanStep(file: seq<byte>, i: nat, n: nat, chunk: seq<byte>)
    requires |file| >= LabelsOffset && i < n
    requires chunk == Slice(file, PositionAfter(file, i), PositionAfter(file, i) + LabelLength)
    ensures PositionAfter(file, i) + |chunk| == PositionAfter(file, i + 1)
    ensures FindEmd(StripBytes(chunk)).Some? ==>
      FirstFound(LabelFinder(file), i, n) == FindEmd(StripBytes(chunk))
    ensures FindEmd(StripBytes(chunk)).None? ==>
      FirstFound(LabelFinder(file), i + 1, n) == FirstFound(LabelFinder(file), i, n)
  {
    ReadNextLabel(file, i);
    assert LabelFinder(file)(i) == FindEmd(StripBytes(chunk));
  }

  /** `_get_emdb`: reads the count word, then that many labels in turn,
      and returns the first accession code found. */
  method GetEmdb(file: seq<byte>) returns (r: Result<Option<string>, MrcError>)
    ensures r == EmdbCode(file)
  {
    var raw := Slice(file, LabelCountOffset, LabelsOffset);
    if |raw| < 4 {
      return Err(TruncatedHeader);
    }
    var big := ReadI32BE(raw);
    var little := ReadI32LE(raw);
    var numLabels := if big < little then big else little;
    assert LabelCount(file) == Ok(numLabels);
    ghost var n := LabelsExamined(numLabels);
    var pos := LabelsOffset;
    var i := 0;
    while i < numLabels
      invariant 0 <= i && (0 <= numLabels ==> i <= numLabels)
      invariant pos == PositionAfter(file, i)
      invariant FirstFound(LabelFinder(file), i, n) == FirstFound(LabelFinder(file), 0, n)
    {
      var chunk := Slice(file, pos, pos + LabelLength);
      ScanStep(file, i, n, chunk);
      pos := pos + |chunk|;
      var m := FindEmd(StripBytes(chunk));
      if m.Some? {
        return Ok(m);
      }
      i := i + 1;
    }
    return Ok(None);
  }

  // ---------------------------------------------------------------------
  // The map's dataset

  /** What the EMDB entry service reports for an entry (`_get_emdb_info`,
      a network lookup outside this model): its release date and title. */
  datatype EmdbInfo = EmdbInfo(mapReleaseDate: string, title: string)

  /** The location `parse_file` builds: the EMDB entry when the labels name
      one (with the service's title, or the generic description when the
      title is empty), otherwise the local file. */
  function MapLocation(filename: string, emdb: Option<string>, lookup: string -> EmdbInfo): (l: Location)
    ensures l.EMDBLocation? <==> emdb.Some? && emdb.value != ""
    ensures l.EMDBLocation? ==>
      l.accession == emdb.value && l.version == Some(lookup(emdb.value).mapReleaseDate)
    ensures l.InputFileLocation? ==> l.path == filename && l.repo.None?
    ensures l.EMDBLocation? ==>
      l.details == Some(if lookup(emdb.value).title != "" then lookup(emdb.value).title else MapDetails)
    ensures l.InputFileLocation? ==> l.details == Some(MapDetails)
    ensures l.details.Some? && l.details.value != ""
  {
    if emdb.Some? && emdb.value != "" then
      var info := lookup(emdb.value);
      EMDBLocation(emdb.value, Some(info.mapReleaseDate),
                   Some(if info.title != "" then info.title else MapDetails))
    else
      InputFileLocation(filename, None, Some(MapDetails))
  }

  /** `MRCParser.parse_file`: an EM density-map dataset, at the EMDB entry
      when a counted label names one and at the file otherwise. */
  method ParseMrcFile(filename: string, file: seq<byte>, lookup: string -> EmdbInfo)
    returns (r: Result<Dataset, MrcError>)
    ensures r.Err? <==> |file| < LabelsOffset
    ensures r.Ok? ==> fresh(r.value) && r.value.kind == EMDensityDataset && r.value.parents == []
    ensures r.Ok? ==> r.value.location == MapLocation(filename, EmdbCode(file).value, lookup)
    ensures r.Ok? ==> (r.value.location.EMDBLocation? <==> EmdbCode(file).value.Some?)
  {
    var emdb := GetEmdb(file);
    if emdb.Err? {
      return Err(emdb.error);
    }
    if emdb.value.Some? {
      EmdbCodeShape(file);
    }
    var l := MapLocation(filename, emdb.value, lookup);
    var d := new Dataset(EMDensityDataset, l);
    return Ok(d);
  }
}
