# Metadata extraction from MRC and PDB files (ihm/metadata.py)

This project models the metadata parsers of the python-ihm library.
`ihm/metadata.py` reads provenance information from the headers of two kinds
of structural-biology input files.

- **MRC density maps** (`MRCParser`). The 4-byte label count (NLABL) at byte
  offset 220 is read as a big-endian and as a little-endian signed 32-bit
  integer, and the smaller reading is taken. That many 80-byte text labels are
  then searched for `EMDATABANK.org ... EMD-<digits>`. The first code found
  makes the map an EMDB entry; otherwise the map is the local file.
- **PDB files** (`PDBParser`). The first line decides the dialect:
  - an official PDB entry (`HEADER`);
  - a file derived from a PDB entry;
  - a file derived from a published comparative model;
  - a MODELLER model;
  - a Phyre2 model;
  - anything else, treated as a comparative model.

  Each dialect's handler builds the file's dataset and its parents. For
  comparative models it also recovers the templates from MODELLER's
  `REMARK   6` records:
  - `TEMPLATE PATH` records build a map from template codes to files;
  - the last `ALIGNMENT` record names the alignment file;
  - every `TEMPLATE:` statistics record becomes a template.

  The datasets of the templates are appended, in record order, to the model's
  parents. The templates are returned stably sorted by the model residue
  range they cover.

Modules:

| file | module | what it holds |
|---|---|---|
| `wrappers.dfy` | `Wrappers` | `Option` and `Result` |
| `text.dfy` | `Text` | Python string operations used by the parsers |
| `provenance.dfy` | `Provenance` | locations, the `Dataset` class with its mutable `parents`, template rows |
| `mrc.dfy` | `Mrc` | `MRCParser.parse_file` and `_get_emdb` |
| `pdb_records.dfy` | `PdbRecords` | dialect dispatch, first-line columns, `_parse_pdb_records`, `_parse_details` |
| `modeller_remarks.dfy` | `ModellerRemarks` | the three `REMARK   6` regular expressions and the header scan of `_get_templates` |
| `sorting.dfy` | `Sorting` | Python's stable `sorted` by a pair key |
| `templates.dfy` | `Templates` | `_handle_template` and `_get_templates` |
| `pdb_parser.dfy` | `PdbParser` | `PDBParser.parse_file` and its dialect handlers |

Representation choices:
- A PDB file is the sequence of its lines. Each line keeps its terminator, as
  Python's line iteration yields it.
- An MRC file is a sequence of bytes (a 0..255 `newtype`).
- Python's slicing clamps its bounds; `Text.Slice` and `Text.From` do the same.
- `str.strip` removes Unicode whitespace (`Text.IsSpace`).
- Where the source mutates things in place, the model is imperative:
  - `Dataset.parents` is a field the handlers append to;
  - `_get_emdb`, `_parse_pdb_records`, `_parse_details`, the `_get_templates`
    scan and the template loop are methods with loops, proved against
    specification functions.

Two behaviours of the code that a reader might not expect, which the model follows:
- An MRC file shorter than 224 bytes makes `struct.unpack_from` raise. The
  model returns `Err(TruncatedHeader)` rather than "no code".
- A file derived from a PDB entry or from a comparative model gets the
  details `''` (not `None`) when it has no TITLE record.

## Model

| member | source | states |
|---|---|---|
| Mrc.LabelCount | ihm/metadata.py:81-88 | an error exactly when fewer than four bytes sit at offset 220; otherwise the count is one of the big- and little-endian signed readings, and no larger than either |
| Mrc.LabelCountByteOrderBlind | ihm/metadata.py:83-88 | reversing the four count bytes leaves the count unchanged |
| Mrc.SmallCountRecovered | ihm/metadata.py:83-88 | a count of at most 127, written in either byte order, is read back exactly |
| Mrc.Count128LittleEndianReadsNegative | ihm/metadata.py:86-89 | 128 written little-endian reads as -2^31, and no label is examined |
| Mrc.Label | ihm/metadata.py:89-90 | a label is at most 80 bytes and is empty once it starts past the end of the file |
| Mrc.MatchWithinLine | ihm/metadata.py:79 | `.*` does not cross a newline: the code lies on the marker's line |
| Mrc.NoMatchWithoutCode | ihm/metadata.py:79 | with no `EMD-<digit>` after the marker on its line, there is no match at that marker |
| Mrc.LastCodeIsGreedy | ihm/metadata.py:79 | the greedy `.*` selects the last code start on the marker's line |
| Mrc.SearchFromIsLeftmostGreedy | ihm/metadata.py:79-91 | the search finds nothing exactly when no position matches; otherwise it gives the leftmost marker's greedy match, with all its digits |
| Mrc.StripBytesTrims | ihm/metadata.py:90 | `bytes.strip()` removes only ASCII whitespace, from both ends, and leaves none at either end of the label |
| Mrc.FindEmdShape | ihm/metadata.py:91-96 | a code found in a label is `EMD-` followed by one or more digits and nothing else |
| Mrc.EmdbCodeIsFirstMatch | ihm/metadata.py:89-96 | `None` exactly when none of the `max(count, 0)` labels matches; otherwise the code of the first label that matches |
| Mrc.EmdbCodeShape | ihm/metadata.py:91-96 | a returned code is `EMD-` followed by one or more digits and nothing else |
| Mrc.EmdbCodeReadsOnlyCountedLabels | ihm/metadata.py:89-92 | labels after the counted ones never change the result |
| Mrc.NegativeCountFindsNothing | ihm/metadata.py:88-89 | a negative count examines no label, so the result is `None` |
| Mrc.EmdbCodeClampedToFile | ihm/metadata.py:89-90 | a count larger than the file holds behaves as if clamped to the labels present |
| Mrc.GetEmdb | ihm/metadata.py:77-96 | the label-reading loop returns exactly `EmdbCode` of the file |
| Mrc.MapLocation | ihm/metadata.py:50-58 | an EMDB location (accession, the service's date as version) exactly when a code was found, otherwise the local file; an EMDB entry's details are the service's title, or the density-map text when the title is empty, and a local file's details are the density-map text |
| Mrc.ParseMrcFile | ihm/metadata.py:43-59 | fails exactly on a truncated header; otherwise a fresh EM density dataset, with no parents, at `MapLocation` of the code found |
| PdbRecords.PrefixesExclusive | ihm/metadata.py:123-134 | no line starts with two of the five dialect prefixes |
| PdbRecords.Classify | ihm/metadata.py:123-139 | each dialect is chosen exactly when the line starts with its prefix, and the unknown dialect exactly when it starts with none |
| PdbRecords.HeaderVersion | ihm/metadata.py:264 | the `[50:59]` date, stripped: at most 9 characters, no whitespace at either end, and the whole column range when it has none there |
| PdbRecords.HeaderCode | ihm/metadata.py:145 | the `[62:66]` identifier, stripped: at most 4 characters, no whitespace at either end, and the whole column range when it has none there |
| Text.StripTrims | ihm/metadata.py:264 | `str.strip()` never lengthens, leaves no whitespace at either end, and leaves a string already without it unchanged |
| PdbRecords.HeaderRoundTrip | ihm/metadata.py:142-147 | a HEADER record laid out in wwPDB columns is an official entry whose `[50:59]` date and `[62:66]` identifier are read back, stripped |
| PdbRecords.DerivedPdbRoundTrip | ihm/metadata.py:149-156 | `DERIVED FROM PDB:` with a padded code is recognised and the `[27:]` code is read back |
| PdbRecords.DerivedModelRoundTrip | ihm/metadata.py:158-168 | `DERIVED FROM COMPARATIVE MODEL, DOI:` with a padded DOI is recognised and the `[46:]` DOI is read back |
| PdbRecords.ModellerRoundTrip | ihm/metadata.py:170-173 | MODELLER's EXPDTA line is recognised and `[38:].split(' ', 1)` gives the version and the rest |
| PdbRecords.SplitOnceAtFirst | ihm/metadata.py:172 | `split(' ', 1)` splits at the first space |
| Text.SplitOnce | ihm/metadata.py:172 | one or two parts; one exactly when the separator is absent; two parts rejoin to the input around the separator, and the first holds no separator |
| PdbRecords.TitleTextConcat | ihm/metadata.py:260-261 | the title of two runs of lines is the concatenation of their titles |
| PdbRecords.TitleRecordText | ihm/metadata.py:260-261 | a TITLE record gives back its text from column 11, less trailing whitespace |
| PdbRecords.TitleTextEmpty | ihm/metadata.py:264-265 | the title is empty exactly when every TITLE record's text is |
| PdbRecords.HelixRecords | ihm/metadata.py:262-263 | every metadata record is a HELIX line, and there are no more of them than lines |
| PdbRecords.HelixRecordsOne | ihm/metadata.py:262-263 | a single line yields one record, keeping the line, exactly when it is a HELIX line |
| PdbRecords.HelixLineRecorded | ihm/metadata.py:262-263 | every HELIX line yields its record, between the records of the lines before it and those of the lines after it |
| PdbRecords.HelixRecordsConcat | ihm/metadata.py:262-263 | the HELIX records of two runs of lines are those of the first followed by those of the second |
| PdbRecords.TitleDetails | ihm/metadata.py:264-265 | `None` exactly when every TITLE text is empty; otherwise the non-empty title |
| PdbRecords.ParsePdbRecords | ihm/metadata.py:255-265 | the `[50:59]` date, the title details and one record per HELIX line, with ATOM lines not stopping the loop |
| PdbRecords.HeaderLines | ihm/metadata.py:270-274 | the lines before the first ATOM line: a prefix of the file holding no ATOM line, followed by an ATOM line when shorter |
| PdbRecords.DetailsStopAtAtom | ihm/metadata.py:267-275 | nothing after the first ATOM line contributes to the details |
| PdbRecords.ParseDetails | ihm/metadata.py:267-275 | the loop returns the title of the lines before the first ATOM line |
| ModellerRemarks.TokenThenMatches | ihm/metadata.py:194-198 | `(\S+)` followed by a literal starting with a space matches exactly the maximal non-space run, and fails exactly when no run length fits |
| ModellerRemarks.SplitLastColonSpec | ihm/metadata.py:196-198 | `(\S+):(\S+)` within one token splits it at its last colon with both sides non-empty, and fails exactly when no colon sits between them |
| ModellerRemarks.BeforeLastPercentSpec | ihm/metadata.py:196-198 | `(\S+)%` captures the token up to its last `%`, and fails exactly when no `%` follows the first character |
| ModellerRemarks.TokenIsRunAt | ihm/metadata.py:194-198 | `(\S+)` at a position captures the maximal non-space run there, and no other run of non-space characters qualifies |
| ModellerRemarks.AlignmentMatches | ihm/metadata.py:194 | an ALIGNMENT line matches exactly when it starts with the prefix and a non-space character follows it; the capture is the maximal run there |
| ModellerRemarks.TemplatePathMatches | ihm/metadata.py:195 | a TEMPLATE PATH line matches exactly when it starts with the prefix followed by a maximal code run, one space and a maximal path run; the captures are those runs |
| ModellerRemarks.TemplateMatches | ihm/metadata.py:196-198 | a statistics line matches exactly when it has the prefix, then maximal non-space runs separated by the pattern's literals, the colon fields splitting at their last colon with both sides non-empty, and a last run with a `%` after its first character; the record holds the code, the bounds, the template chain and the run up to its last `%` |
| ModellerRemarks.AlignmentRoundTrip | ihm/metadata.py:194 | an ALIGNMENT record written with a path is matched and gives the path back |
| ModellerRemarks.TemplatePathRoundTrip | ihm/metadata.py:195 | a TEMPLATE PATH record written with a code and a path gives both back |
| ModellerRemarks.TemplateRemarkRoundTrip | ihm/metadata.py:196-198 | a statistics record written from its fields is matched and gives back the code, the four bounds, the template chain and the identity |
| ModellerRemarks.ScanRemarksConcat | ihm/metadata.py:202-218 | scanning two runs of lines: the path maps merge with the later run winning, the later alignment wins, and the records are concatenated |
| ModellerRemarks.LastAlignmentWins | ihm/metadata.py:209-215 | no alignment exactly when no line has one; otherwise the last ALIGNMENT record's path, resolved against the file |
| ModellerRemarks.PathKeys | ihm/metadata.py:205-208 | a code is in the path map exactly when some TEMPLATE PATH record names it |
| ModellerRemarks.LastPathWins | ihm/metadata.py:205-208 | the last TEMPLATE PATH record for a code decides its resolved path |
| ModellerRemarks.StatsInOrder | ihm/metadata.py:216-218 | each statistics record is queued once, in line order |
| ModellerRemarks.ReadRemark | ihm/metadata.py:205-218 | the loop body updates the path map, the alignment and the queue as one scan step |
| ModellerRemarks.ScanTemplateRemarks | ihm/metadata.py:199-218 | the loop gives exactly the scan of the lines before the first ATOM line |
| Sorting.SortByIsSorted | ihm/metadata.py:222-223 | the sorted templates' `seq_id_range` never decreases, compared as Python compares tuples |
| Sorting.SortByIsPermutation | ihm/metadata.py:222-223 | sorting only reorders the templates |
| Sorting.SortByIsStable | ihm/metadata.py:222-223 | templates with equal `seq_id_range` keep their record order |
| Sorting.InsertSorted | ihm/metadata.py:222-223 | inserting into a sorted list keeps it sorted |
| Sorting.InsertWithKey | ihm/metadata.py:222-223 | an inserted template goes after every earlier one with its key |
| Templates.PdbCodeShape | ihm/metadata.py:235 | a code matches exactly when it is a digit, three letters or digits and a letter, followed by nothing, a lone line break (where `$` also matches), or `_` and text with a line break at most in last place |
| Templates.TemplateLocationCases | ihm/metadata.py:234-243 | a PDB-shaped code gives the upper-cased PDB entry of its first four characters whatever the path map holds; any other code resolves exactly when the map holds it, to that file with the template details, and otherwise is the missing-key error |
| Templates.PdbCodeNamesEntry | ihm/metadata.py:234-238 | `1abcX` and `1abcX_suffix` name the PDB entry `1ABC` |
| Text.Upper | ihm/metadata.py:237 | same length, every ASCII lower-case letter raised and nothing else changed |
| Text.ParseIntAccepts | ihm/metadata.py:229-231 | `int()` accepts exactly an optional sign followed by one or more digits, and only a minus sign gives a negative number |
| Text.ParseIntDecimal | ihm/metadata.py:229-231 | `int()` reads back a decimal number, with or without a leading minus sign |
| Templates.WrittenRemarkResolves | ihm/metadata.py:225-238 | a statistics record written with decimal bounds and a PDB-shaped code resolves to those ranges, that chain and identity, and that PDB entry |
| Templates.ResolveStatsCases | ihm/metadata.py:228-243 | a record resolves exactly when its four bounds parse and its template is found, to those ranges, the record's chain and identity and that location; otherwise the first bound that fails to parse, in source order, or the missing template is the error |
| Templates.ResolveAllOk | ihm/metadata.py:220-221 | all records resolve exactly when each does, and the results are theirs in order |
| Templates.ResolveAllFirstError | ihm/metadata.py:220-241 | otherwise the error is that of the first record that fails |
| Templates.ResolvedPrefix | ihm/metadata.py:220-221 | each record of a prefix that resolves as a whole resolves to its own spec |
| Templates.HandleTemplate | ihm/metadata.py:225-253 | fails exactly as the bounds parse and location lookup do, appending nothing; otherwise one fresh PDB dataset with no parents of its own is appended to the parents and the row carries the record's ranges, chain, identity, location and the alignment file |
| Templates.HandleTemplates | ihm/metadata.py:220-221 | one row per record, in record order, each appending its own fresh PDB dataset, with no parents of its own, to the parents; on an error, the error of the first failing record, with the fresh parentless datasets of the records before it appended, in order, at their locations |
| Templates.GetTemplates | ihm/metadata.py:191-223 | the rows of the header's statistics records, sharing the last alignment, sorted by `seq_id_range`; the parents gain one fresh PDB dataset with no parents of its own per record, in record order; on an error, the datasets of the records before the first failing one stay appended |
| Templates.TemplatesSortedStably | ihm/metadata.py:222-223 | the returned templates are sorted, a permutation of the rows, and stable |
| PdbParser.ParseOfficialPdb | ihm/metadata.py:142-147 | a fresh PDB dataset with no parents at the HEADER's code, date and title details, with the HELIX records as metadata |
| PdbParser.ParseDerivedFromPdb | ihm/metadata.py:149-156 | the file as a PDB dataset titled from its header, with exactly one parent: the PDB entry named in the first line |
| PdbParser.ParseDerivedFromModel | ihm/metadata.py:158-168 | the file as a comparative model titled from its header, with exactly one parent: the model at path `.` of the repository with the first line's DOI |
| PdbParser.HandleComparativeModel | ihm/metadata.py:186-189 | a fresh comparative-model dataset for the file, whose parents are the templates' fresh PDB datasets in record order, each with no parents of its own, with the sorted templates |
| PdbParser.ParseModellerModel | ihm/metadata.py:170-173 | records MODELLER's version parts, then the comparative-model result |
| PdbParser.ParsePhyreModel | ihm/metadata.py:175-179 | records Phyre2 with an unknown version, then the comparative-model result |
| PdbParser.ParseUnknownModel | ihm/metadata.py:181-184 | records no software, then the comparative-model result |
| PdbParser.ParsePdbFile | ihm/metadata.py:106-140 | per dialect chosen by the first line, the result of that dialect's handler, with empty templates, software and metadata where the handler sets none; the dataset is fresh, a derived dataset's one parent is fresh with no parents of its own, and a comparative model's parents are fresh template datasets with no parents of their own |

## Left out

- `MRCParser._get_emdb_info` (ihm/metadata.py:61-75) queries the EBI web
  service over the network. It is the parameter `lookup` of
  `Mrc.ParseMrcFile`, a total function. So the exceptions of
  ihm/metadata.py:65-68 are not modelled: a failing `urlopen`, and the
  lookups `keys[0]` and `['deposition']` failing on an unexpected reply.
- Opening and reading files are not modelled. The inputs are the file's bytes
  or lines. The second read of the PDB file in `_get_templates` is the same
  line sequence.
- `util._get_relative_path` is not part of this model. It is the parameter
  `resolve` of the template scan.
- `startmodel.PDBHelix(line)` parsing is not part of this model. A metadata
  record keeps its HELIX line.
- `CifWriter.unknown` is the constructor `UnknownVersion`.
- The Python 2 branches (ihm/metadata.py:22-26, 71-73, 93-94) are left out,
  and so is `util/make-mmcif.py`, a command-line wrapper.
- Templates.HandleTemplate: `float()` of the sequence identity is not modelled.
  The identity is kept as its captured token, so a token that `float()`
  rejects is not an error here.
- Text.ParseInt: `int()` also accepts surrounding whitespace, underscores
  between digits and non-ASCII decimal digits. A captured `\S+` token has no
  whitespace; the other two forms are not modelled.
- Templates.IsPdbCode: `\d` in a text pattern also matches non-ASCII decimal
  digits. Only ASCII digits are modelled.
- Text.Upper raises only ASCII letters. Python's `str.upper` also maps
  non-ASCII letters.
