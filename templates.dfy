/** `_get_templates` and `_handle_template` of ihm/metadata.py: each
    MODELLER statistics record becomes a template row whose dataset is a
    PDB entry (when the template code looks like a PDB code) or a local
    file named by a TEMPLATE PATH record; every template's dataset becomes
    a parent of the model's dataset, and the rows are returned sorted by
    the model residue range they cover. */
module Templates {
  import opened Wrappers
  import opened Text
  import opened Provenance
  import opened PdbRecords
  import opened ModellerRemarks
  import opened Sorting

  const TemplateDetails: string := "Template for comparative modeling"

  /** Why a statistics record cannot be turned into a template: `int()` of
      a range bound fails, or a code that is not PDB-shaped has no TEMPLATE
      PATH record (the source's `ValueError` and `KeyError`). */
  datatype TemplateError = InvalidInteger(token: string) | UnknownTemplate(code: string)

  predicate IsAsciiAlnum(c: char) { IsAsciiDigit(c) || IsAsciiLetter(c) }

  /** What may follow the five leading characters for
      `(\d[a-zA-Z0-9]{3})[a-zA-Z](_.*)?$` to match: nothing, an underscore
      and a line without a line break, and in both cases an optional final
      line break (where `$` also matches). */
  predicate PdbCodeTail(rest: string) {
    || rest == []
    || rest == "\n"
    || (rest[0] == '_' && forall k :: 1 <= k < |rest| - 1 ==> rest[k] != '\n')
  }

  /** `re.match('(\d[a-zA-Z0-9]{3})[a-zA-Z](_.*)?$', code)`: a digit, three
      letters or digits, a chain letter, then the tail. */
  predicate IsPdbCode(code: string) {
    && |code| >= 5
    && IsAsciiDigit(code[0])
    && IsAsciiAlnum(code[1]) && IsAsciiAlnum(code[2]) && IsAsciiAlnum(code[3])
    && IsAsciiLetter(code[4])
    && PdbCodeTail(code[5..])
  }

  /** A code is PDB-shaped exactly when it is a digit, three letters or
      digits and a letter, followed by nothing, by a lone line break, or by
      an underscore and text in which only the last character may be a line
      break. */
  lemma PdbCodeShape(code: string)
    ensures IsPdbCode(code) <==>
      && |code| >= 5
      && IsAsciiDigit(code[0])
      && (forall k :: 1 <= k < 4 ==> IsAsciiAlnum(code[k]))
      && IsAsciiLetter(code[4])
      && (|code| == 5 || code[5..] == "\n" || (code[5] == '_' && forall k :: 6 <= k < |code| - 1 ==> code[k] != '\n'))
    ensures IsPdbCode(code) ==> forall k :: 5 <= k < |code| - 1 ==> code[k] != '\n'
  {
    if |code| > 5 {
      var rest := code[5..];
      assert forall k :: 6 <= k < |code| - 1 ==> code[k] == rest[k - 5];
      assert forall k :: 1 <= k < |rest| - 1 ==> rest[k] == code[k + 5];
    }
  }

  /** Where a template's structure is: the PDB entry named by the code's
      first four characters, upper-cased, or the file of the code's TEMPLATE
      PATH record. */
  function TemplateLocation(code: string, paths: map<string, string>): Result<Location, TemplateError> {
    if IsPdbCode(code) then Ok(PDBLocation(Upper(code[..4]), None, None))
    else if code in paths then Ok(InputFileLocation(paths[code], None, Some(TemplateDetails)))
    else Err(UnknownTemplate(code))
  }

  /** A PDB-shaped code never consults the path map; any other code is
      found exactly when the map holds it, and is an error otherwise. */
  lemma TemplateLocationCases(code: string, paths: map<string, string>, other: map<string, string>)
    ensures IsPdbCode(code) ==>
      && TemplateLocation(code, paths) == TemplateLocation(code, other)
      && TemplateLocation(code, paths).Ok?
      && TemplateLocation(code, paths).value == PDBLocation(Upper(code[..4]), None, None)
      && |TemplateLocation(code, paths).value.dbCode| == 4
    ensures !IsPdbCode(code) ==>
      && (TemplateLocation(code, paths).Ok? <==> code in paths)
      && (code in paths ==>
            TemplateLocation(code, paths).value == InputFileLocation(paths[code], None, Some(TemplateDetails)))
      && (code !in paths ==> TemplateLocation(code, paths) == Err(UnknownTemplate(code)))
  {
  }

  /** A four-character PDB identifier starting with a digit, followed by a
      chain letter and optionally `_` and a suffix, names that PDB entry in
      upper case. */
  lemma PdbCodeNamesEntry(id: string, chain: char, suffix: string, paths: map<string, string>)
    requires |id| == 4 && IsAsciiDigit(id[0])
    requires IsAsciiAlnum(id[1]) && IsAsciiAlnum(id[2]) && IsAsciiAlnum(id[3])
    requires IsAsciiLetter(chain) && '\n' !in suffix
    ensures TemplateLocation(id + [chain], paths) == Ok(PDBLocation(Upper(id), None, None))
    ensures TemplateLocation(id + [chain] + "_" + suffix, paths) == Ok(PDBLocation(Upper(id), None, None))
  {
    var short := id + [chain];
    assert short[..4] == id;
    assert short[5..] == [];
    var long := id + [chain] + "_" + suffix;
    assert long[..4] == id;
    assert long[5..] == "_" + suffix;
    forall k | 1 <= k < |long[5..]| - 1 ensures long[5..][k] != '\n' {
      assert long[5..][k] == suffix[k - 1];
    }
  }

  /** The fields of a template row before its dataset exists. */
  datatype TemplateSpec = TemplateSpec(
    location: Location,
    asymId: string,
    seqIdRange: (int, int),
    templateSeqIdRange: (int, int),
    sequenceIdentity: string)

  /** What `_handle_template` makes of a record: the four bounds are read
      with `int()` in the order template start, template end, model start,
      model end, and the first that fails is the error; then the template's
      location is looked up. */
  function ResolveStats(stats: TemplateStats, paths: map<string, string>): (r: Result<TemplateSpec, TemplateError>)
  {
    var tb := ParseInt(stats.templateBegin);
    var te := ParseInt(stats.templateEnd);
    var mb := ParseInt(stats.modelBegin);
    var me := ParseInt(stats.modelEnd);
    if tb.None? then Err(InvalidInteger(stats.templateBegin))
    else if te.None? then Err(InvalidInteger(stats.templateEnd))
    else if mb.None? then Err(InvalidInteger(stats.modelBegin))
    else if me.None? then Err(InvalidInteger(stats.modelEnd))
    else
      match TemplateLocation(stats.code, paths)
      case Err(e) => Err(e)
      case Ok(location) =>
        Ok(TemplateSpec(location, stats.templateChain, (mb.value, me.value), (tb.value, te.value),
                        stats.identity))
  }

  /** A record resolves exactly when its four bounds are integers and its
      template is found; then the spec holds those integers, the record's
      chain and identity, and the template's location. The first bound that
      is not an integer is the error, and a record whose bounds are all
      integers fails only on the template's lookup. */
  lemma ResolveStatsCases(stats: TemplateStats, paths: map<string, string>)
    ensures var r := ResolveStats(stats, paths);
      && (r.Ok? <==>
            && ParseInt(stats.templateBegin).Some? && ParseInt(stats.templateEnd).Some?
            && ParseInt(stats.modelBegin).Some? && ParseInt(stats.modelEnd).Some?
            && TemplateLocation(stats.code, paths).Ok?)
      && (r.Ok? ==>
            && ParseInt(stats.templateBegin) == Some(r.value.templateSeqIdRange.0)
            && ParseInt(stats.templateEnd) == Some(r.value.templateSeqIdRange.1)
            && ParseInt(stats.modelBegin) == Some(r.value.seqIdRange.0)
            && ParseInt(stats.modelEnd) == Some(r.value.seqIdRange.1)
            && r.value.location == TemplateLocation(stats.code, paths).value
            && r.value.asymId == stats.templateChain && r.value.sequenceIdentity == stats.identity)
      && (ParseInt(stats.templateBegin).None? ==> r == Err(InvalidInteger(stats.templateBegin)))
      && (ParseInt(stats.templateBegin).Some? && ParseInt(stats.templateEnd).None? ==>
            r == Err(InvalidInteger(stats.templateEnd)))
      && (ParseInt(stats.templateBegin).Some? && ParseInt(stats.templateEnd).Some?
            && ParseInt(stats.modelBegin).None?
          ==> r == Err(InvalidInteger(stats.modelBegin)))
      && (ParseInt(stats.templateBegin).Some? && ParseInt(stats.templateEnd).Some?
            && ParseInt(stats.modelBegin).Some? && ParseInt(stats.modelEnd).None?
          ==> r == Err(InvalidInteger(stats.modelEnd)))
      && (r.Err? && r.error.UnknownTemplate? ==> TemplateLocation(stats.code, paths) == Err(r.error))
  {
  }

  /** A record MODELLER writes with decimal bounds resolves to those bounds,
      the template's chain and the identity, and to the template's PDB entry
      when the code is PDB-shaped. */
  lemma WrittenRemarkResolves(code: string, tb: nat, chain: string, te: nat, mb: nat,
                              modelChain: string, me: nat, identity: string, eol: string,
                              paths: map<string, string>)
    requires IsPdbCode(code) && NoSpace(code)
    requires WellFormedToken(chain) && WellFormedToken(modelChain) && WellFormedToken(identity)
    requires ':' !in chain && ':' !in modelChain && '%' !in identity
    requires eol == [] || IsSpace(eol[0])
    ensures var stats := MatchTemplate(TemplateRemark(code, Decimal(tb), chain, Decimal(te), Decimal(mb),
                                                      modelChain, Decimal(me), identity, eol));
      && stats.Some?
      && ResolveStats(stats.value, paths)
         == Ok(TemplateSpec(PDBLocation(Upper(code[..4]), None, None), chain,
                            (mb, me), (tb, te), identity))
  {
    DecimalIsToken(tb);
    DecimalIsToken(te);
    DecimalIsToken(mb);
    DecimalIsToken(me);
    TemplateRemarkRoundTrip(code, Decimal(tb), chain, Decimal(te), Decimal(mb), modelChain, Decimal(me),
                            identity, eol);
    ParseIntDecimal(tb);
    ParseIntDecimal(te);
    ParseIntDecimal(mb);
    ParseIntDecimal(me);
  }

  /** Decimal digits are a single token. */
  lemma DecimalIsToken(n: nat)
    ensures WellFormedToken(Decimal(n))
  {
    var s := Decimal(n);
    forall k | 0 <= k < |s| ensures !IsSpace(s[k]) {
      assert IsAsciiDigit(s[k]);
    }
  }

  /** Every item mapped by `f`, in order, stopping at the first error
      (what a list comprehension does when an element raises). */
  function CollectOk<T, U, E>(f: T -> Result<U, E>, s: seq<T>): (r: Result<seq<U>, E>)
    ensures r.Ok? ==> |r.value| == |s|
  {
    if s == [] then Ok([])
    else
      match CollectOk(f, s[..|s| - 1])
      case Err(e) => Err(e)
      case Ok(done) =>
        match f(s[|s| - 1])
        case Err(e) => Err(e)
        case Ok(u) => Ok(done + [u])
  }

  /** All items map without error exactly when each one does, and then the
      results are theirs, in order. */
  lemma {:induction false} CollectOkAll<T, U, E>(f: T -> Result<U, E>, s: seq<T>)
    ensures CollectOk(f, s).Ok? <==> forall k :: 0 <= k < |s| ==> f(s[k]).Ok?
    ensures CollectOk(f, s).Ok? ==> forall k :: 0 <= k < |s| ==> CollectOk(f, s).value[k] == f(s[k]).value
    decreases |s|
  {
    if s != [] {
      var init := s[..|s| - 1];
      CollectOkAll(f, init);
      assert forall k :: 0 <= k < |init| ==> init[k] == s[k];
    }
  }

  /** An error is that of the first item that fails. */
  lemma {:induction false} CollectOkFirstError<T, U, E>(f: T -> Result<U, E>, s: seq<T>)
    requires CollectOk(f, s).Err?
    ensures exists k ::
      && 0 <= k < |s|
      && f(s[k]) == Err(CollectOk(f, s).error)
      && forall j :: 0 <= j < k ==> f(s[j]).Ok?
    decreases |s|
  {
    var init := s[..|s| - 1];
    var n := |s| - 1;
    assert forall k :: 0 <= k < n ==> init[k] == s[k];
    if CollectOk(f, init).Err? {
      CollectOkFirstError(f, init);
      var k :| && 0 <= k < |init|
               && f(init[k]) == Err(CollectOk(f, init).error)
               && forall j :: 0 <= j < k ==> f(init[j]).Ok?;
      assert f(s[k]) == Err(CollectOk(f, s).error);
    } else {
      CollectOkAll(f, init);
      assert f(s[n]) == Err(CollectOk(f, s).error);
    }
  }

  /** Mapping one more item. */
  lemma CollectOkStep<T, U, E>(f: T -> Result<U, E>, s: seq<T>, k: nat)
    requires k < |s|
    ensures CollectOk(f, s[..k + 1])
      == match CollectOk(f, s[..k])
         case Err(e) => Err(e)
         case Ok(done) =>
           match f(s[k])
           case Err(e) => Err(e)
           case Ok(u) => Ok(done + [u])
  {
    assert s[..k + 1][..k] == s[..k];
  }

  /** An error in a prefix is the error of the whole. */
  lemma {:induction false} CollectOkStops<T, U, E>(f: T -> Result<U, E>, s: seq<T>, k: nat)
    requires k <= |s| && CollectOk(f, s[..k]).Err?
    ensures CollectOk(f, s) == CollectOk(f, s[..k])
    decreases |s| - k
  {
    if k < |s| {
      CollectOkStep(f, s, k);
      CollectOkStops(f, s, k + 1);
    } else {
      assert s[..k] == s;
    }
  }

  /** `_handle_template`'s reading of one record, as a function of the
      record. */
  function Resolver(paths: map<string, string>): TemplateStats -> Result<TemplateSpec, TemplateError> {
    stats => ResolveStats(stats, paths)
  }

  /** The records resolved in order, stopping at the first that fails. */
  function ResolveAll(records: seq<TemplateStats>, paths: map<string, string>)
    : Result<seq<TemplateSpec>, TemplateError>
  {
    CollectOk(Resolver(paths), records)
  }

  /** All records resolve exactly when each one does, and then the specs
      are theirs, in order. */
  lemma ResolveAllOk(records: seq<TemplateStats>, paths: map<string, string>)
    ensures ResolveAll(records, paths).Ok?
      <==> forall k :: 0 <= k < |records| ==> ResolveStats(records[k], paths).Ok?
    ensures ResolveAll(records, paths).Ok? ==>
      && |ResolveAll(records, paths).value| == |records|
      && forall k :: 0 <= k < |records| ==> ResolveAll(records, paths).value[k] == ResolveStats(records[k], paths).value
  {
    CollectOkAll(Resolver(paths), records);
  }

  /** When the records do not all resolve, the error is that of the first
      record that fails. */
  lemma ResolveAllFirstError(records: seq<TemplateStats>, paths: map<string, string>)
    requires ResolveAll(records, paths).Err?
    ensures exists k ::
      && 0 <= k < |records|
      && ResolveStats(records[k], paths) == Err(ResolveAll(records, paths).error)
      && forall j :: 0 <= j < k ==> ResolveStats(records[j], paths).Ok?
  {
    CollectOkFirstError(Resolver(paths), records);
    var k :| && 0 <= k < |records|
             && Resolver(paths)(records[k]) == Err(ResolveAll(records, paths).error)
             && forall j :: 0 <= j < k ==> Resolver(paths)(records[j]).Ok?;
    assert ResolveStats(records[k], paths) == Err(ResolveAll(records, paths).error);
  }

  /** Each record of a prefix that resolves as a whole resolves to its
      own spec. */
  lemma ResolvedPrefix(records: seq<TemplateStats>, paths: map<string, string>, k: nat, specs: seq<TemplateSpec>)
    requires k <= |records| && ResolveAll(records[..k], paths) == Ok(specs)
    ensures |specs| == k
    ensures forall j :: 0 <= j < k ==>
      ResolveStats(records[j], paths).Ok? && ResolveStats(records[j], paths).value == specs[j]
  {
    CollectOkAll(Resolver(paths), records[..k]);
    assert forall j :: 0 <= j < k ==> records[..k][j] == records[j];
  }

  /** Where each dataset's structure is. */
  function Locations(datasets: seq<Dataset>): seq<Location> {
    seq(|datasets|, k requires 0 <= k < |datasets| => datasets[k].location)
  }

  /** Where each spec's structure is. */
  function SpecLocations(specs: seq<TemplateSpec>): seq<Location> {
    seq(|specs|, k requires 0 <= k < |specs| => specs[k].location)
  }

  /** One more dataset, made for one more spec. */
  lemma LocationsSnoc(datasets: seq<Dataset>, specs: seq<TemplateSpec>, t: Template)
    requires Locations(datasets) == SpecLocations(specs)
    ensures Locations(datasets + [t.dataset]) == SpecLocations(specs + [SpecOf(t)])
  {
    var l := Locations(datasets + [t.dataset]);
    var r := SpecLocations(specs + [SpecOf(t)]);
    assert |datasets| == |Locations(datasets)| == |specs|;
    forall k | 0 <= k < |l| ensures l[k] == r[k] {
      if k < |datasets| {
        assert l[k] == Locations(datasets)[k];
      }
    }
  }

  /** A prefix that resolves, followed by a record that fails, is the
      error of the whole. */
  lemma ResolveAllStops(records: seq<TemplateStats>, paths: map<string, string>, m: nat,
                        specs: seq<TemplateSpec>, e: TemplateError)
    requires m < |records| && ResolveAll(records[..m], paths) == Ok(specs)
    requires ResolveStats(records[m], paths) == Err(e)
    ensures ResolveAll(records, paths) == Err(e)
  {
    CollectOkStep(Resolver(paths), records, m);
    CollectOkStops(Resolver(paths), records, m + 1);
  }

  /** The state `_get_templates` stops in: the datasets of the records
      that resolved appended to the parents, and the failing record's
      error. */
  lemma StoppedState(records: seq<TemplateStats>, paths: map<string, string>, m: nat,
                     specs: seq<TemplateSpec>, e: TemplateError, before: seq<Dataset>, added: seq<Dataset>)
    requires m < |records| && ResolveAll(records[..m], paths) == Ok(specs)
    requires ResolveStats(records[m], paths) == Err(e)
    requires |added| == m && Locations(added) == SpecLocations(specs)
    ensures var n := |before|;
      var m' := |before + added| - n;
      && n <= |before + added| && m' < |records|
      && (before + added)[..n] == before
      && (before + added)[n..] == added
      && ResolveStats(records[m'], paths) == Err(e)
      && ResolveAll(records[..m'], paths).Ok?
      && Locations((before + added)[n..]) == SpecLocations(ResolveAll(records[..m'], paths).value)
      && ResolveAll(records, paths) == Err(e)
  {
    ResolveAllStops(records, paths, m, specs, e);
    assert (before + added)[|before|..] == added;
  }

  /** The state `_get_templates` finishes in: every record resolved and
      its dataset appended to the parents. */
  lemma FinishedState(records: seq<TemplateStats>, paths: map<string, string>, specs: seq<TemplateSpec>,
                      before: seq<Dataset>, added: seq<Dataset>, templates: seq<Template>,
                      alignment: Option<Location>)
    requires ResolveAll(records[..|records|], paths) == Ok(specs)
    requires |added| == |specs| && Locations(added) == SpecLocations(specs)
    requires templates == Rows(specs, added, alignment)
    ensures ResolveAll(records, paths) == Ok(specs)
    ensures |before + added| == |before| + |records|
    ensures (before + added)[..|before|] == before
    ensures (before + added)[|before|..] == added
    ensures Locations((before + added)[|before|..]) == SpecLocations(specs)
    ensures templates == Rows(specs, (before + added)[|before|..], alignment)
  {
    assert records[..|records|] == records;
    assert (before + added)[|before|..] == added;
  }

  /** A prefix that resolves, extended by a record that resolves. */
  lemma ResolvedStep(records: seq<TemplateStats>, paths: map<string, string>, m: nat,
                     specs: seq<TemplateSpec>, spec: TemplateSpec)
    requires m < |records| && ResolveAll(records[..m], paths) == Ok(specs)
    requires ResolveStats(records[m], paths) == Ok(spec)
    ensures ResolveAll(records[..m + 1], paths) == Ok(specs + [spec])
  {
    CollectOkStep(Resolver(paths), records, m);
  }

  /** The sort key of a template row: `seq_id_range`. */
  function SeqIdRange(t: Template): (int, int) { t.seqIdRange }

  /** The fields a row was made from. */
  function SpecOf(t: Template): TemplateSpec {
    TemplateSpec(t.dataset.location, t.asymId, t.seqIdRange, t.templateSeqIdRange, t.sequenceIdentity)
  }

  /** The rows made from specs and their datasets, sharing one alignment
      file. */
  function Rows(specs: seq<TemplateSpec>, datasets: seq<Dataset>, alignment: Option<Location>)
    : (rows: seq<Template>)
    requires |datasets| == |specs|
    ensures |rows| == |specs|
  {
    seq(|specs|, k requires 0 <= k < |specs| =>
      Template(datasets[k], specs[k].asymId, specs[k].seqIdRange, specs[k].templateSeqIdRange,
               specs[k].sequenceIdentity, alignment))
  }

  /** One more row, made from its own spec and dataset. */
  lemma RowsSnoc(specs: seq<TemplateSpec>, datasets: seq<Dataset>, alignment: Option<Location>, t: Template)
    requires |datasets| == |specs| && t.alignmentFile == alignment
    ensures Rows(specs + [SpecOf(t)], datasets + [t.dataset], alignment) == Rows(specs, datasets, alignment) + [t]
  {
    var rows := Rows(specs + [SpecOf(t)], datasets + [t.dataset], alignment);
    assert rows[|specs|] == t;
    assert forall k :: 0 <= k < |specs| ==> rows[k] == Rows(specs, datasets, alignment)[k];
  }

  /** `_handle_template`: reads the record's bounds, finds the template's
      location, makes a PDB dataset for it and appends that dataset to the
      model's parents. On an error nothing is appended. */
  method HandleTemplate(info: TemplateStats, templatePathMap: map<string, string>,
                        targetDataset: Dataset, alnfile: Option<Location>)
    returns (r: Result<Template, TemplateError>)
    modifies targetDataset
    ensures r.Err? <==> ResolveStats(info, templatePathMap).Err?
    ensures r.Err? ==>
      && r.error == ResolveStats(info, templatePathMap).error
      && targetDataset.parents == old(targetDataset.parents)
    ensures r.Ok? ==>
      && SpecOf(r.value) == ResolveStats(info, templatePathMap).value
      && r.value.alignmentFile == alnfile
      && fresh(r.value.dataset) && r.value.dataset.kind == PDBDataset && r.value.dataset.parents == []
      && targetDataset.parents == old(targetDataset.parents) + [r.value.dataset]
  {
    var templateCode := info.code;
    var templateBegin := ParseInt(info.templateBegin);
    if templateBegin.None? {
      return Err(InvalidInteger(info.templateBegin));
    }
    var templateEnd := ParseInt(info.templateEnd);
    if templateEnd.None? {
      return Err(InvalidInteger(info.templateEnd));
    }
    var templateSeqIdRange := (templateBegin.value, templateEnd.value);
    var templateAsymId := info.templateChain;
    var modelBegin := ParseInt(info.modelBegin);
    if modelBegin.None? {
      return Err(InvalidInteger(info.modelBegin));
    }
    var modelEnd := ParseInt(info.modelEnd);
    if modelEnd.None? {
      return Err(InvalidInteger(info.modelEnd));
    }
    var seqIdRange := (modelBegin.value, modelEnd.value);
    var l: Location;
    if IsPdbCode(templateCode) {
      l := PDBLocation(Upper(templateCode[..4]), None, None);
    } else {
      if templateCode !in templatePathMap {
        return Err(UnknownTemplate(templateCode));
      }
      l := InputFileLocation(templatePathMap[templateCode], None, Some(TemplateDetails));
    }
    var d := new Dataset(PDBDataset, l);
    targetDataset.AddParent(d);
    r := Ok(Template(d, templateAsymId, seqIdRange, templateSeqIdRange, info.identity, alnfile));
  }

  /** What `_get_templates` depends on: the scan of the header of the
      model's own file. */
  function HeaderScan(lines: seq<string>, pdbname: string, resolve: (string, string) -> string): RemarkScan {
    ScanRemarks(HeaderLines(lines), pdbname, resolve)
  }

  /** The list comprehension of `_get_templates`: `_handle_template` on
      every record in order, each appending its dataset to the model's
      parents; the first record that cannot be resolved is the error. */
  method HandleTemplates(templateInfo: seq<TemplateStats>, templatePathMap: map<string, string>,
                         targetDataset: Dataset, alnfile: Option<Location>)
    returns (r: Result<seq<Template>, TemplateError>)
    modifies targetDataset
    ensures var specs := ResolveAll(templateInfo, templatePathMap);
      && (r.Err? <==> specs.Err?)
      && (r.Err? ==> r.error == specs.error)
      && (r.Ok? ==>
            var n := |old(targetDataset.parents)|;
            && |targetDataset.parents| == n + |templateInfo|
            && targetDataset.parents[..n] == old(targetDataset.parents)
            && (forall d :: d in targetDataset.parents[n..] ==> fresh(d) && d.kind == PDBDataset)
            && NoParents(targetDataset.parents[n..])
            && Locations(targetDataset.parents[n..]) == SpecLocations(specs.value)
            && r.value == Rows(specs.value, targetDataset.parents[n..], alnfile))
    ensures r.Err? ==>
      var n := |old(targetDataset.parents)|;
      var m := |targetDataset.parents| - n;
      && n <= |targetDataset.parents| && m < |templateInfo|
      && targetDataset.parents[..n] == old(targetDataset.parents)
      && ResolveStats(templateInfo[m], templatePathMap) == Err(r.error)
      && ResolveAll(templateInfo[..m], templatePathMap).Ok?
      && Locations(targetDataset.parents[n..]) == SpecLocations(ResolveAll(templateInfo[..m], templatePathMap).value)
      && (forall d :: d in targetDataset.parents[n..] ==> fresh(d) && d.kind == PDBDataset)
      && NoParents(targetDataset.parents[n..])
  {
    var templates: seq<Template> := [];
    ghost var specs: seq<TemplateSpec> := [];
    ghost var added: seq<Dataset> := [];
    var k := 0;
    while k < |templateInfo|
      invariant k <= |templateInfo|
      invariant targetDataset.parents == old(targetDataset.parents) + added
      invariant |added| == k && |specs| == k
      invariant templates == Rows(specs, added, alnfile)
      invariant forall d :: d in added ==> fresh(d) && d.kind == PDBDataset
      invariant NoParents(added)
      invariant Locations(added) == SpecLocations(specs)
      invariant ResolveAll(templateInfo[..k], templatePathMap) == Ok(specs)
    {
      var t := HandleTemplate(templateInfo[k], templatePathMap, targetDataset, alnfile);
      if t.Err? {
        assert NoParents(added);
        StoppedState(templateInfo, templatePathMap, k, specs, t.error, old(targetDataset.parents), added);
        return Err(t.error);
      }
      assert NoParents(added + [t.value.dataset]);
      ResolvedStep(templateInfo, templatePathMap, k, specs, SpecOf(t.value));
      RowsSnoc(specs, added, alnfile, t.value);
      LocationsSnoc(added, specs, t.value);
      templates := templates + [t.value];
      specs := specs + [SpecOf(t.value)];
      added := added + [t.value.dataset];
      k := k + 1;
    }
    FinishedState(templateInfo, templatePathMap, specs, old(targetDataset.parents), added, templates, alnfile);
    r := Ok(templates);
  }

  /** `_get_templates`: scans the header, turns every statistics record
      into a template in record order (each appending its dataset to the
      model's parents), and returns the templates sorted by `seq_id_range`.
      The first record that cannot be resolved is the error. */
  method GetTemplates(lines: seq<string>, pdbname: string, resolve: (string, string) -> string,
                      targetDataset: Dataset)
    returns (r: Result<seq<Template>, TemplateError>)
    modifies targetDataset
    ensures var scan := HeaderScan(lines, pdbname, resolve);
      var specs := ResolveAll(scan.stats, scan.paths);
      && (r.Err? <==> specs.Err?)
      && (r.Err? ==> r.error == specs.error)
      && (r.Ok? ==>
            var n := |old(targetDataset.parents)|;
            && |targetDataset.parents| == n + |scan.stats|
            && targetDataset.parents[..n] == old(targetDataset.parents)
            && (forall d :: d in targetDataset.parents[n..] ==> fresh(d) && d.kind == PDBDataset)
            && NoParents(targetDataset.parents[n..])
            && Locations(targetDataset.parents[n..]) == SpecLocations(specs.value)
            && r.value == SortBy(Rows(specs.value, targetDataset.parents[n..], scan.alignment), SeqIdRange))
    ensures var scan := HeaderScan(lines, pdbname, resolve);
      r.Err? ==>
        var n := |old(targetDataset.parents)|;
        var m := |targetDataset.parents| - n;
        && n <= |targetDataset.parents| && m < |scan.stats|
        && targetDataset.parents[..n] == old(targetDataset.parents)
        && ResolveStats(scan.stats[m], scan.paths) == Err(r.error)
        && ResolveAll(scan.stats[..m], scan.paths).Ok?
        && Locations(targetDataset.parents[n..]) == SpecLocations(ResolveAll(scan.stats[..m], scan.paths).value)
        && (forall d :: d in targetDataset.parents[n..] ==> fresh(d) && d.kind == PDBDataset)
        && NoParents(targetDataset.parents[n..])
  {
    var scan := ScanTemplateRemarks(lines, pdbname, resolve);
    var templates := HandleTemplates(scan.stats, scan.paths, targetDataset, scan.alignment);
    if templates.Err? {
      return Err(templates.error);
    }
    r := Ok(SortBy(templates.value, SeqIdRange));
  }

  /** The templates `_get_templates` returns are sorted by `seq_id_range`,
      are a reordering of the rows made in record order, and rows with the
      same range keep the order of their records. */
  lemma TemplatesSortedStably(rows: seq<Template>, range: (int, int))
    ensures SortedBy(SortBy(rows, SeqIdRange), SeqIdRange)
    ensures multiset(SortBy(rows, SeqIdRange)) == multiset(rows)
    ensures WithKey(SortBy(rows, SeqIdRange), SeqIdRange, range) == WithKey(rows, SeqIdRange, range)
  {
    SortByIsSorted(rows, SeqIdRange);
    SortByIsPermutation(rows, SeqIdRange);
    SortByIsStable(rows, SeqIdRange, range);
  }
}
