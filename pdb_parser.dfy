/** `PDBParser.parse_file` of ihm/metadata.py: the first line of a PDB file
    decides which dialect it is written in, and each dialect's handler
    makes the dataset for the file, its parents, the comparative-modelling
    templates, the modelling software and the metadata records.

    The file is given as its lines, each with its line terminator; opening
    it is outside the model. `resolve(pdbname, path)` stands for
    `util._get_relative_path`, which makes the paths of TEMPLATE PATH and
    ALIGNMENT records relative to the file. */
module PdbParser {
  import opened Wrappers
  import opened Text
  import opened Provenance
  import opened PdbRecords
  import opened ModellerRemarks
  import opened Sorting
  import opened Templates

  /** The dictionary `parse_file` returns. */
  datatype PdbMetadata = PdbMetadata(
    dataset: Dataset,
    templates: seq<Template>,
    software: map<string, SoftwareVersion>,
    metadata: seq<MetadataRecord>)

  const StartingModelDetails: string := "Starting model structure"
  const StartingComparativeModelDetails: string := "Starting comparative model structure"

  /** The location of the file being parsed, before a handler sets its
      details. */
  function LocalFile(filename: string): Location {
    InputFileLocation(filename, None, Some(StartingModelDetails))
  }

  /** `fh.readline()` on a fresh file: the first line, or the empty string
      for an empty file. */
  function FirstLine(lines: seq<string>): string {
    if lines == [] then "" else lines[0]
  }

  /** The lines left after the first has been read. */
  function RestLines(lines: seq<string>): seq<string> {
    if lines == [] then [] else lines[1..]
  }

  /** `_parse_official_pdb`: a PDB dataset at the entry named in the HEADER
      record, with the deposition date as its version and the title as its
      details, and the HELIX records as metadata. */
  method ParseOfficialPdb(firstLine: string, rest: seq<string>) returns (ret: PdbMetadata)
    ensures fresh(ret.dataset) && ret.dataset.kind == PDBDataset && ret.dataset.parents == []
    ensures ret.dataset.location
      == PDBLocation(HeaderCode(firstLine), Some(HeaderVersion(firstLine)), TitleDetails(rest))
    ensures ret.templates == [] && ret.software == map[] && ret.metadata == HelixRecords(rest)
  {
    var version, details, metadata := ParsePdbRecords(firstLine, rest);
    var l := PDBLocation(Strip(Slice(firstLine, 62, 66)), Some(version), details);
    var d := new Dataset(PDBDataset, l);
    ret := PdbMetadata(d, [], map[], metadata);
  }

  /** `_parse_derived_from_pdb`: the file is a PDB dataset whose details are
      its title, with the PDB entry it was derived from as its one parent. */
  method ParseDerivedFromPdb(firstLine: string, rest: seq<string>, filename: string)
    returns (ret: PdbMetadata)
    ensures fresh(ret.dataset) && ret.dataset.kind == PDBDataset
    ensures ret.dataset.location
      == InputFileLocation(filename, None, Some(TitleText(HeaderLines(rest))))
    ensures |ret.dataset.parents| == 1
    ensures fresh(ret.dataset.parents[0]) && ret.dataset.parents[0].kind == PDBDataset
    ensures ret.dataset.parents[0].location == PDBLocation(DerivedPdbCode(firstLine), None, None)
    ensures ret.dataset.parents[0].parents == []
    ensures ret.templates == [] && ret.software == map[] && ret.metadata == []
  {
    var details := ParseDetails(rest);
    var localFile := InputFileLocation(filename, None, Some(details));
    var dbCode := Strip(From(firstLine, 27));
    var d := new Dataset(PDBDataset, localFile);
    var parent := new Dataset(PDBDataset, PDBLocation(dbCode, None, None));
    d.AddParent(parent);
    ret := PdbMetadata(d, [], map[], []);
  }

  /** `_parse_derived_from_model`: the file is a comparative model whose
      details are its title, with the published model, in the repository
      named by the DOI, as its one parent. */
  method ParseDerivedFromModel(firstLine: string, rest: seq<string>, filename: string)
    returns (ret: PdbMetadata)
    ensures fresh(ret.dataset) && ret.dataset.kind == ComparativeModelDataset
    ensures ret.dataset.location
      == InputFileLocation(filename, None, Some(TitleText(HeaderLines(rest))))
    ensures |ret.dataset.parents| == 1
    ensures fresh(ret.dataset.parents[0]) && ret.dataset.parents[0].kind == ComparativeModelDataset
    ensures ret.dataset.parents[0].location
      == InputFileLocation(".", Some(Repository(DerivedModelDoi(firstLine))),
                           Some(StartingComparativeModelDetails))
    ensures ret.dataset.parents[0].parents == []
    ensures ret.templates == [] && ret.software == map[] && ret.metadata == []
  {
    var details := ParseDetails(rest);
    var localFile := InputFileLocation(filename, None, Some(details));
    var d := new Dataset(ComparativeModelDataset, localFile);
    var repo := Repository(Strip(From(firstLine, 46)));
    var origLoc := InputFileLocation(".", Some(repo), Some(StartingComparativeModelDetails));
    var parent := new Dataset(ComparativeModelDataset, origLoc);
    d.AddParent(parent);
    ret := PdbMetadata(d, [], map[], []);
  }

  /** What `_handle_comparative_model` leaves in the result: the file is a
      comparative model whose parents are its templates' datasets, in record
      order; the templates are those rows sorted by `seq_id_range`; the first
      record that cannot be resolved is the error. */
  ghost predicate ComparativeModelResult(r: Result<PdbMetadata, TemplateError>, filename: string,
                                         lines: seq<string>, resolve: (string, string) -> string,
                                         software: map<string, SoftwareVersion>)
    reads if r.Ok? then {r.value.dataset} else {}
  {
    var scan := HeaderScan(lines, filename, resolve);
    var specs := ResolveAll(scan.stats, scan.paths);
    && (r.Err? <==> specs.Err?)
    && (r.Err? ==> r.error == specs.error)
    && (r.Ok? ==>
          && r.value.dataset.kind == ComparativeModelDataset
          && r.value.dataset.location == LocalFile(filename)
          && |r.value.dataset.parents| == |scan.stats|
          && (forall d :: d in r.value.dataset.parents ==> d.kind == PDBDataset)
          && Locations(r.value.dataset.parents) == SpecLocations(specs.value)
          && r.value.templates == SortBy(Rows(specs.value, r.value.dataset.parents, scan.alignment), SeqIdRange)
          && r.value.software == software
          && r.value.metadata == [])
  }

  /** `_handle_comparative_model`: a fresh comparative-model dataset for the
      file, with fresh template datasets as its parents. */
  method HandleComparativeModel(filename: string, lines: seq<string>,
                                resolve: (string, string) -> string,
                                software: map<string, SoftwareVersion>)
    returns (r: Result<PdbMetadata, TemplateError>)
    ensures ComparativeModelResult(r, filename, lines, resolve, software)
    ensures r.Ok? ==> fresh(r.value.dataset) && (forall d :: d in r.value.dataset.parents ==> fresh(d))
    ensures r.Ok? ==> NoParents(r.value.dataset.parents)
  {
    var d := new Dataset(ComparativeModelDataset, LocalFile(filename));
    var templates := GetTemplates(lines, filename, resolve, d);
    if templates.Err? {
      return Err(templates.error);
    }
    assert d.parents[0..] == d.parents;
    r := Ok(PdbMetadata(d, templates.value, software, []));
  }

  /** `_parse_modeller_model`: records MODELLER's version (`[38:]` split
      at the first space) and handles the file as a comparative model. */
  method ParseModellerModel(firstLine: string, filename: string, lines: seq<string>,
                            resolve: (string, string) -> string)
    returns (r: Result<PdbMetadata, TemplateError>)
    ensures ComparativeModelResult(r, filename, lines, resolve,
                                   map["modeller" := VersionParts(ModellerVersion(firstLine))])
    ensures r.Ok? ==> fresh(r.value.dataset) && (forall d :: d in r.value.dataset.parents ==> fresh(d))
    ensures r.Ok? ==> NoParents(r.value.dataset.parents)
  {
    var software := map["modeller" := VersionParts(SplitOnce(From(firstLine, 38), ' '))];
    r := HandleComparativeModel(filename, lines, resolve, software);
  }

  /** `_parse_phyre_model`: records Phyre2 with an unknown version and
      handles the file as a comparative model. */
  method ParsePhyreModel(filename: string, lines: seq<string>, resolve: (string, string) -> string)
    returns (r: Result<PdbMetadata, TemplateError>)
    ensures ComparativeModelResult(r, filename, lines, resolve, map["phyre2" := UnknownVersion])
    ensures r.Ok? ==> fresh(r.value.dataset) && (forall d :: d in r.value.dataset.parents ==> fresh(d))
    ensures r.Ok? ==> NoParents(r.value.dataset.parents)
  {
    r := HandleComparativeModel(filename, lines, resolve, map["phyre2" := UnknownVersion]);
  }

  /** `_parse_unknown_model`: a file of no known dialect is handled as a
      comparative model, with no software recorded. */
  method ParseUnknownModel(filename: string, lines: seq<string>, resolve: (string, string) -> string)
    returns (r: Result<PdbMetadata, TemplateError>)
    ensures ComparativeModelResult(r, filename, lines, resolve, map[])
    ensures r.Ok? ==> fresh(r.value.dataset) && (forall d :: d in r.value.dataset.parents ==> fresh(d))
    ensures r.Ok? ==> NoParents(r.value.dataset.parents)
  {
    r := HandleComparativeModel(filename, lines, resolve, map[]);
  }

  /** The software `parse_file` records for each comparative dialect. */
  function ComparativeSoftware(firstLine: string): map<string, SoftwareVersion> {
    match Classify(firstLine)
    case ModellerModel => map["modeller" := VersionParts(ModellerVersion(firstLine))]
    case PhyreModel => map["phyre2" := UnknownVersion]
    case _ => map[]
  }

  /** `parse_file`: the first line is matched against the dialects'
      prefixes in order and the first match chooses the handler; a file of
      no known dialect is taken to be a comparative model. Only the
      comparative models can fail, when a template record cannot be
      resolved. */
  method ParsePdbFile(filename: string, lines: seq<string>, resolve: (string, string) -> string)
    returns (r: Result<PdbMetadata, TemplateError>)
    ensures var firstLine := FirstLine(lines);
      var rest := RestLines(lines);
      && (Classify(firstLine) == OfficialEntry ==>
            && r.Ok? && fresh(r.value.dataset)
            && r.value.dataset.kind == PDBDataset && r.value.dataset.parents == []
            && r.value.dataset.location
               == PDBLocation(HeaderCode(firstLine), Some(HeaderVersion(firstLine)), TitleDetails(rest))
            && r.value.templates == [] && r.value.software == map[]
            && r.value.metadata == HelixRecords(rest))
      && (Classify(firstLine) == DerivedFromPdb ==>
            && r.Ok? && fresh(r.value.dataset) && r.value.dataset.kind == PDBDataset
            && r.value.dataset.location
               == InputFileLocation(filename, None, Some(TitleText(HeaderLines(rest))))
            && |r.value.dataset.parents| == 1
            && fresh(r.value.dataset.parents[0]) && r.value.dataset.parents[0].kind == PDBDataset
            && r.value.dataset.parents[0].location == PDBLocation(DerivedPdbCode(firstLine), None, None)
            && r.value.dataset.parents[0].parents == []
            && r.value.templates == [] && r.value.software == map[] && r.value.metadata == [])
      && (Classify(firstLine) == DerivedFromModel ==>
            && r.Ok? && fresh(r.value.dataset) && r.value.dataset.kind == ComparativeModelDataset
            && r.value.dataset.location
               == InputFileLocation(filename, None, Some(TitleText(HeaderLines(rest))))
            && |r.value.dataset.parents| == 1
            && fresh(r.value.dataset.parents[0]) && r.value.dataset.parents[0].kind == ComparativeModelDataset
            && r.value.dataset.parents[0].location
               == InputFileLocation(".", Some(Repository(DerivedModelDoi(firstLine))),
                                    Some(StartingComparativeModelDetails))
            && r.value.dataset.parents[0].parents == []
            && r.value.templates == [] && r.value.software == map[] && r.value.metadata == [])
    ensures Classify(FirstLine(lines)) in {ModellerModel, PhyreModel, UnknownModel} ==>
      && ComparativeModelResult(r, filename, lines, resolve, ComparativeSoftware(FirstLine(lines)))
      && (r.Ok? ==> fresh(r.value.dataset))
      && (r.Ok? ==> (forall d :: d in r.value.dataset.parents ==> fresh(d)) && NoParents(r.value.dataset.parents))
  {
    var firstLine := FirstLine(lines);
    var rest := RestLines(lines);
    if StartsWith(firstLine, HeaderPrefix) {
      var ret := ParseOfficialPdb(firstLine, rest);
      r := Ok(ret);
    } else if StartsWith(firstLine, DerivedPdbPrefix) {
      var ret := ParseDerivedFromPdb(firstLine, rest, filename);
      r := Ok(ret);
    } else if StartsWith(firstLine, DerivedModelPrefix) {
      var ret := ParseDerivedFromModel(firstLine, rest, filename);
      r := Ok(ret);
    } else if StartsWith(firstLine, ModellerPrefix) {
      r := ParseModellerModel(firstLine, filename, lines, resolve);
    } else if StartsWith(firstLine, PhyrePrefix) {
      r := ParsePhyreModel(filename, lines, resolve);
    } else {
      r := ParseUnknownModel(filename, lines, resolve);
    }
  }
}
