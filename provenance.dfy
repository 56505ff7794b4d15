/** The provenance records the metadata parsers build: where a dataset lives
    (`ihm.location`), the dataset nodes of the provenance graph
    (`ihm.dataset`) and the comparative-modelling template rows
    (`ihm.startmodel.Template`). Only what the parsers construct is kept. */
module Provenance {
  import opened Wrappers

  /** A repository identified by a DOI (`location.Repository(doi=...)`). */
  datatype Repository = Repository(doi: string)

  /** Where a dataset's data are. `version` and `details` are `None` when
      the source passes nothing for them. */
  datatype Location =
    | PDBLocation(dbCode: string, version: Option<string>, details: Option<string>)
    | EMDBLocation(accession: string, version: Option<string>, details: Option<string>)
    | InputFileLocation(path: string, repo: Option<Repository>, details: Option<string>)

  /** Which `ihm.dataset` class a node is. */
  datatype DatasetKind = PDBDataset | ComparativeModelDataset | EMDensityDataset

  /** A node of the provenance graph. Its kind and location are fixed when it
      is made; `parents` is the list the parsers append to in place. */
  class Dataset {
    const kind: DatasetKind
    const location: Location
    var parents: seq<Dataset>

    constructor (kind: DatasetKind, location: Location)
      ensures this.kind == kind && this.location == location
      ensures parents == []
    {
      this.kind := kind;
      this.location := location;
      parents := [];
    }

    /** `d.parents.append(p)`. */
    method AddParent(p: Dataset)
      modifies this
      ensures parents == old(parents) + [p]
    {
      parents := parents + [p];
    }
  }

  /** Datasets with no parents of their own, as every freshly made
      `PDBDataset(l)` is. */
  predicate NoParents(ds: seq<Dataset>)
    reads set d | d in ds
  {
    forall d :: d in ds ==> d.parents == []
  }

  /** One MODELLER template: the template's dataset, its chain, the ranges it
      covers in the model (`seqIdRange`) and in the template, the sequence
      identity as written in the header, and the shared alignment file. */
  datatype Template = Template(
    dataset: Dataset,
    asymId: string,
    seqIdRange: (int, int),
    templateSeqIdRange: (int, int),
    sequenceIdentity: string,
    alignmentFile: Option<Location>)

  /** A record kept from an official PDB header (`startmodel.PDBHelix(line)`):
      the HELIX line itself, whose own parsing is outside this model. */
  datatype MetadataRecord = Helix(line: string)

  /** The version recorded for a modelling package: the parts of the
      MODELLER version field, or `CifWriter.unknown`. */
  datatype SoftwareVersion = VersionParts(parts: seq<string>) | UnknownVersion
}
