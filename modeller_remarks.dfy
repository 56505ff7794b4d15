/** The MODELLER `REMARK   6` records that `_get_templates` of
    ihm/metadata.py reads from a model's header: the alignment file, the
    paths of templates that are not PDB entries, and one statistics record
    per template.

    The three regular expressions are anchored at the start of the line and
    built from `(\S+)` runs joined by literal text. Since every literal that
    follows a run starts with a space, each run is exactly the maximal run
    of non-whitespace characters at its position, so the matching is
    written here as token reading. */
module ModellerRemarks {
  import opened Wrappers
  import opened Text
  import opened Provenance
  import opened PdbRecords

  const AlignmentPrefix: string := "REMARK   6 ALIGNMENT: "
  const TemplatePathPrefix: string := "REMARK   6 TEMPLATE PATH "
  const TemplatePrefix: string := "REMARK   6 TEMPLATE: "
  const AlignmentDetails: string := "Alignment for starting comparative model"

  // ---------------------------------------------------------------------
  // Tokens

  predicate NoSpace(t: string) {
    forall k :: 0 <= k < |t| ==> !IsSpace(t[k])
  }

  /** The length of the run of non-whitespace characters at `i`. */
  function NonSpaceRun(s: string, i: nat): (n: nat)
    requires i <= |s|
    ensures i + n <= |s|
    decreases |s| - i
  {
    if i == |s| || IsSpace(s[i]) then 0 else 1 + NonSpaceRun(s, i + 1)
  }

  /** That run holds no whitespace and ends at whitespace or at the end. */
  lemma {:induction false} NonSpaceRunIsRun(s: string, i: nat)
    requires i <= |s|
    ensures var n := NonSpaceRun(s, i);
      && NoSpace(s[i..i + n])
      && (i + n < |s| ==> IsSpace(s[i + n]))
    decreases |s| - i
  {
    if i < |s| && !IsSpace(s[i]) {
      NonSpaceRunIsRun(s, i + 1);
      var n := NonSpaceRun(s, i);
      forall k | i < k < i + n ensures !IsSpace(s[k]) {
        assert s[k] == s[i + 1..i + n][k - i - 1];
      }
    }
  }

  /** The run of non-whitespace characters at `i`. */
  function Token(s: string, i: nat): (t: string)
    requires i <= |s|
  {
    s[i..i + NonSpaceRun(s, i)]
  }

  /** `(\S+)` of length `n` at `i`, followed by the literal `sep`. */
  ghost predicate RunThen(s: string, i: nat, n: nat, sep: string) {
    1 <= n && i + n + |sep| <= |s| && NoSpace(s[i..i + n]) && s[i + n..i + n + |sep|] == sep
  }

  /** When the literal starts with a space, the run that fits is the
      whole run of non-whitespace characters at `i`. */
  lemma RunThenIsRun(s: string, i: nat, n: nat, sep: string)
    requires sep != [] && sep[0] == ' '
    requires RunThen(s, i, n, sep)
    ensures n == NonSpaceRun(s, i)
  {
    var r := NonSpaceRun(s, i);
    NonSpaceRunIsRun(s, i);
    forall k | i <= k < i + n ensures !IsSpace(s[k]) {
      assert s[i..i + n][k - i] == s[k];
    }
    forall k | i <= k < i + r ensures !IsSpace(s[k]) {
      assert s[i..i + r][k - i] == s[k];
    }
    assert s[i + n] == ' ' by {
      assert s[i + n..i + n + |sep|][0] == s[i + n];
    }
  }

  /** `(\S+)` followed by `sep` at position `i`: the run and the position
      after `sep`, or nothing when the pattern does not match there. */
  function TokenThen(s: string, i: nat, sep: string): (r: Option<(string, nat)>)
    requires i <= |s| && sep != [] && sep[0] == ' '
    ensures r.Some? ==>
      && 1 <= |r.value.0| && i + |r.value.0| <= |s|
      && r.value.0 == s[i..i + |r.value.0|] && r.value.1 == i + |r.value.0| + |sep|
  {
    var n := NonSpaceRun(s, i);
    if n >= 1 && i + n + |sep| <= |s| && s[i + n..i + n + |sep|] == sep then
      Some((s[i..i + n], i + n + |sep|))
    else
      None
  }

  /** `TokenThen` finds a run followed by the literal exactly when the
      pattern matches at `i`. */
  lemma TokenThenMatches(s: string, i: nat, sep: string)
    requires i <= |s| && sep != [] && sep[0] == ' '
    ensures var r := TokenThen(s, i, sep);
      && (r.Some? ==> RunThen(s, i, |r.value.0|, sep))
      && (r.None? <==> forall n :: !RunThen(s, i, n, sep))
  {
    var n := NonSpaceRun(s, i);
    NonSpaceRunIsRun(s, i);
    if TokenThen(s, i, sep).Some? {
      assert RunThen(s, i, n, sep);
    } else {
      forall m: nat | RunThen(s, i, m, sep) ensures false {
        RunThenIsRun(s, i, m, sep);
      }
    }
  }

  /** The last position in `[lo, hi)` where `t` holds `c`. */
  function LastIndex(t: string, c: char, lo: nat, hi: nat): (r: Option<nat>)
    requires hi <= |t|
    ensures r.Some? ==> lo <= r.value < hi
    decreases hi
  {
    if hi <= lo then None
    else if t[hi - 1] == c then Some(hi - 1)
    else LastIndex(t, c, lo, hi - 1)
  }

  /** `LastIndex` finds `c` at a position after which it does not occur
      again, and finds nothing exactly when `c` does not occur. */
  lemma {:induction false} LastIndexIsLast(t: string, c: char, lo: nat, hi: nat)
    requires hi <= |t|
    ensures var r := LastIndex(t, c, lo, hi);
      && (r.Some? ==> t[r.value] == c && forall k :: r.value < k < hi ==> t[k] != c)
      && (r.None? <==> forall k :: lo <= k < hi ==> t[k] != c)
    decreases hi
  {
    if lo < hi && t[hi - 1] != c {
      LastIndexIsLast(t, c, lo, hi - 1);
    }
  }

  /** `(\S+):(\S+)` over a whole token: the greedy first group ends at the
      last colon that leaves both groups non-empty. */
  function SplitLastColon(t: string): (r: Option<(string, string)>)
  {
    if |t| < 3 then None
    else
      match LastIndex(t, ':', 1, |t| - 1)
      case None => None
      case Some(c) => Some((t[..c], t[c + 1..]))
  }

  /** Both groups are non-empty, they rebuild the token around a colon, and
      the split is at the last such colon; there is no split exactly when
      no colon has a character on each side. */
  lemma SplitLastColonSpec(t: string)
    ensures var r := SplitLastColon(t);
      && (r.Some? ==>
            && t == r.value.0 + ":" + r.value.1
            && |r.value.0| >= 1 && |r.value.1| >= 1
            && forall k :: |r.value.0| < k < |t| - 1 ==> t[k] != ':')
      && (r.None? <==> forall k :: 1 <= k < |t| - 1 ==> t[k] != ':')
  {
    if |t| >= 3 {
      LastIndexIsLast(t, ':', 1, |t| - 1);
      var r := LastIndex(t, ':', 1, |t| - 1);
      if r.Some? {
        var c := r.value;
        assert t == t[..c] + ":" + t[c + 1..];
      }
    }
  }

  /** A colon-free right part is split off exactly. */
  lemma SplitLastColonOf(a: string, b: string)
    requires |a| >= 1 && |b| >= 1 && ':' !in b
    ensures SplitLastColon(a + ":" + b) == Some((a, b))
  {
    var t := a + ":" + b;
    SplitLastColonSpec(t);
    assert t[|a|] == ':';
    var r := SplitLastColon(t);
    assert r.Some?;
    var x := r.value.0;
    assert t[|x|] == ':';
    forall k | |a| < k < |t| ensures t[k] != ':' {
      assert t[k] == b[k - |a| - 1];
    }
    assert |x| == |a|;
    assert x == t[..|a|] == a;
    assert r.value.1 == t[|a| + 1..] == b;
  }

  // ---------------------------------------------------------------------
  // The three records

  /** `REMARK   6 ALIGNMENT: (\S+)`: the alignment file's path. */
  function MatchAlignment(line: string): (r: Option<string>)
    ensures r.Some? ==>
      && StartsWith(line, AlignmentPrefix)
      && |AlignmentPrefix| + |r.value| <= |line|
      && line[|AlignmentPrefix|..|AlignmentPrefix| + |r.value|] == r.value
      && r.value != []
  {
    if !StartsWith(line, AlignmentPrefix) then None
    else
      var t := Token(line, |AlignmentPrefix|);
      if t == [] then None else Some(t)
  }

  /** `REMARK   6 TEMPLATE PATH (\S+) (\S+)`: a template code and the path
      of its file. */
  function MatchTemplatePath(line: string): (r: Option<(string, string)>)
    ensures r.Some? ==>
      && StartsWith(line, TemplatePathPrefix)
      && r.value.0 != [] && r.value.1 != []
  {
    if !StartsWith(line, TemplatePathPrefix) then None
    else
      match TokenThen(line, |TemplatePathPrefix|, " ")
      case None => None
      case Some((code, j)) =>
        var path := Token(line, j);
        if path == [] then None else Some((code, path))
  }

  /** The seven groups of a `REMARK   6 TEMPLATE:` statistics record, as
      text: the template code, the template range's start, chain and end,
      the model range's start and end, and the sequence identity. */
  datatype TemplateStats = TemplateStats(
    code: string,
    templateBegin: string,
    templateChain: string,
    templateEnd: string,
    modelBegin: string,
    modelEnd: string,
    identity: string)

  /** `(\S+)%` at the end of a record: the greedy group ends at the last
      percent sign of the run that leaves it non-empty. */
  function BeforeLastPercent(t: string): (r: Option<string>)
  {
    match LastIndex(t, '%', 1, |t|)
    case None => None
    case Some(k) => Some(t[..k])
  }

  /** The group is a non-empty front of the run, followed by the run's
      last percent sign; there is none exactly when no percent sign
      follows the first character. */
  lemma BeforeLastPercentSpec(t: string)
    ensures var r := BeforeLastPercent(t);
      && (r.Some? ==>
            && |r.value| >= 1 && |r.value| < |t| && t[|r.value|] == '%'
            && r.value == t[..|r.value|]
            && forall k :: |r.value| < k < |t| ==> t[k] != '%')
      && (r.None? <==> forall k :: 1 <= k < |t| ==> t[k] != '%')
  {
    LastIndexIsLast(t, '%', 1, |t|);
  }

  /** The literals after the first five runs of a statistics record. */
  const TemplateSeparators: seq<string> := [" ", " - ", " MODELS ", " - ", " AT "]

  /** Literals that each start with a space. */
  predicate Separators(seps: seq<string>) {
    seps == [] || (seps[0] != [] && seps[0][0] == ' ' && Separators(seps[1..]))
  }

  /** Runs that are each a non-empty stretch without whitespace. */
  predicate Runs(runs: seq<string>) {
    runs == [] || (runs[0] != [] && NoSpace(runs[0]) && Runs(runs[1..]))
  }

  /** `(\S+)` followed by each of the literals in turn: the runs read, and
      the position after the last literal. */
  function ReadRuns(s: string, i: nat, seps: seq<string>): (r: Option<(seq<string>, nat)>)
    requires i <= |s| && Separators(seps)
    ensures r.Some? ==> |r.value.0| == |seps| && i <= r.value.1 <= |s|
    decreases |seps|
  {
    if seps == [] then Some(([], i))
    else
      match TokenThen(s, i, seps[0])
      case None => None
      case Some((t, j)) =>
        match ReadRuns(s, j, seps[1..])
        case None => None
        case Some((ts, e)) => Some(([t] + ts, e))
  }

  /** `REMARK   6 TEMPLATE: (\S+) (\S+):(\S+) \- (\S+):\S+ MODELS (\S+):\S+
      \- (\S+):\S+ AT (\S+)%`. */
  function MatchTemplate(line: string): (r: Option<TemplateStats>)
    ensures r.Some? ==> StartsWith(line, TemplatePrefix) && r.value.code != []
  {
    if !StartsWith(line, TemplatePrefix) then None
    else
      match ReadRuns(line, |TemplatePrefix|, TemplateSeparators)
      case None => None
      case Some((runs, p)) =>
        var templateFrom, templateTo := SplitLastColon(runs[1]), SplitLastColon(runs[2]);
        var modelFrom, modelTo := SplitLastColon(runs[3]), SplitLastColon(runs[4]);
        var identity := BeforeLastPercent(Token(line, p));
        if templateFrom.Some? && templateTo.Some? && modelFrom.Some? && modelTo.Some? && identity.Some? then
          Some(TemplateStats(runs[0], templateFrom.value.0, templateFrom.value.1, templateTo.value.0,
                             modelFrom.value.0, modelTo.value.0, identity.value))
        else
          None
  }

  // ---------------------------------------------------------------------
  // The records as MODELLER writes them

  /** Runs each followed by its literal. */
  function Interleave(runs: seq<string>, seps: seq<string>): string
    requires |runs| == |seps|
    decreases |runs|
  {
    if runs == [] then "" else runs[0] + seps[0] + Interleave(runs[1..], seps[1..])
  }

  /** A template statistics record in MODELLER's layout: the prefix, the
      code, the template range `tb:chain - te:chain`, the model range
      `mb:modelChain - me:modelChain`, then `AT`, the identity and a percent
      sign (`RunsLayout` spells the middle part out). */
  function TemplateRemark(code: string, tb: string, chain: string, te: string,
                          mb: string, modelChain: string, me: string,
                          identity: string, eol: string): string
  {
    TemplatePrefix
    + Interleave([code, tb + ":" + chain, te + ":" + chain, mb + ":" + modelChain,
                  me + ":" + modelChain], TemplateSeparators)
    + (identity + "%" + eol)
  }

  /** A run followed by a literal is read back, wherever it sits. */
  lemma TokenThenOf(x: string, t: string, sep: string, y: string)
    requires t != [] && NoSpace(t) && sep != [] && sep[0] == ' '
    ensures var r := TokenThen(x + t + sep + y, |x|, sep);
      r.Some? && r.value.0 == t && r.value.1 == |x| + |t| + |sep|
  {
    var s := x + t + sep + y;
    assert s[|x|..|x| + |t|] == t;
    assert s[|x| + |t|..|x| + |t| + |sep|] == sep;
    RunThenIsRun(s, |x|, |t|, sep);
  }

  /** Runs laid out with their literals are read back in order. */
  lemma {:induction false} ReadRunsOf(x: string, runs: seq<string>, seps: seq<string>, y: string)
    requires |runs| == |seps| && Separators(seps)
    requires Runs(runs)
    ensures var r := ReadRuns(x + Interleave(runs, seps) + y, |x|, seps);
      r.Some? && r.value.0 == runs && r.value.1 == |x| + |Interleave(runs, seps)|
    decreases |runs|
  {
    var s := x + Interleave(runs, seps) + y;
    if runs != [] {
      var rest := Interleave(runs[1..], seps[1..]);
      assert s == x + runs[0] + seps[0] + (rest + y);
      TokenThenOf(x, runs[0], seps[0], rest + y);
      var x' := x + runs[0] + seps[0];
      assert s == x' + rest + y;
      ReadRunsOf(x', runs[1..], seps[1..], y);
      var tail := ReadRuns(s, |x'|, seps[1..]);
      assert tail.Some? && tail.value.0 == runs[1..] && tail.value.1 == |x'| + |rest|;
      var head := TokenThen(s, |x|, seps[0]);
      assert head.Some? && head.value.0 == runs[0] && head.value.1 == |x'|;
      assert [runs[0]] + runs[1..] == runs;
    } else {
      assert s == x + y;
    }
  }

  /** The run at the end of a record: the run itself, when whitespace or
      the end of the line follows it. */
  lemma TokenOf(x: string, t: string, y: string)
    requires NoSpace(t) && (y == [] || IsSpace(y[0]))
    ensures Token(x + t + y, |x|) == t
  {
    var s := x + t + y;
    assert s[|x|..|x| + |t|] == t;
    var u := Token(s, |x|);
    NonSpaceRunIsRun(s, |x|);
    forall k | |x| <= k < |x| + |t| ensures !IsSpace(s[k]) {
      assert s[k] == t[k - |x|];
    }
    forall k | |x| <= k < |x| + |u| ensures !IsSpace(s[k]) {
      assert s[k] == u[k - |x|];
    }
    if |x| + |t| < |s| {
      assert IsSpace(s[|x| + |t|]) by {
        assert s[|x| + |t|] == y[0];
      }
    }
    assert |u| == |t|;
  }

  predicate WellFormedToken(t: string) { t != [] && NoSpace(t) }

  /** A record laid out as the prefix, five runs with their literals, a
      final run and the end of the line is read back run by run. */
  lemma ReadTemplateFields(runs: seq<string>, last: string, eol: string)
    requires |runs| == 5 && Runs(runs) && NoSpace(last)
    requires eol == [] || IsSpace(eol[0])
    ensures var line := TemplatePrefix + Interleave(runs, TemplateSeparators) + (last + eol);
      var rr := ReadRuns(line, |TemplatePrefix|, TemplateSeparators);
      && StartsWith(line, TemplatePrefix)
      && rr.Some? && rr.value.0 == runs && Token(line, rr.value.1) == last
  {
    var fields := Interleave(runs, TemplateSeparators);
    SeparatorsOfTemplate();
    ReadRunsOf(TemplatePrefix, runs, TemplateSeparators, last + eol);
    ConcatAssoc(TemplatePrefix, fields, last + eol);
    TakeConcat(TemplatePrefix, fields + (last + eol));
    ConcatAssoc(TemplatePrefix + fields, last, eol);
    TokenOf(TemplatePrefix + fields, last, eol);
  }

  lemma SeparatorsOfTemplate()
    ensures Separators(TemplateSeparators)
  {
    var seps := TemplateSeparators;
    assert Separators(seps[4..]);
    assert Separators(seps[3..]);
    assert Separators(seps[2..]);
    assert Separators(seps[1..]);
  }

  /** Five tokens make five runs. */
  lemma FiveRuns(a: string, b: string, c: string, d: string, e: string)
    requires WellFormedToken(a) && WellFormedToken(b) && WellFormedToken(c)
    requires WellFormedToken(d) && WellFormedToken(e)
    ensures Runs([a, b, c, d, e])
  {
    assert Runs([e]);
    assert [d, e][1..] == [e];
    assert Runs([d, e]);
    assert [c, d, e][1..] == [d, e];
    assert Runs([c, d, e]);
    assert [b, c, d, e][1..] == [c, d, e];
    assert Runs([b, c, d, e]);
    assert [a, b, c, d, e][1..] == [b, c, d, e];
  }

  /** Every field of a record MODELLER writes comes back from
      `MatchTemplate`, provided the fields are single tokens, the chain
      identifiers hold no colon and the identity no percent sign. */
  lemma TemplateRemarkRoundTrip(code: string, tb: string, chain: string, te: string,
                                mb: string, modelChain: string, me: string,
                                identity: string, eol: string)
    requires WellFormedToken(code) && WellFormedToken(tb) && WellFormedToken(chain)
    requires WellFormedToken(te) && WellFormedToken(mb) && WellFormedToken(modelChain)
    requires WellFormedToken(me) && WellFormedToken(identity)
    requires ':' !in chain && ':' !in modelChain && '%' !in identity
    requires eol == [] || IsSpace(eol[0])
    ensures MatchTemplate(TemplateRemark(code, tb, chain, te, mb, modelChain, me, identity, eol))
      == Some(TemplateStats(code, tb, chain, te, mb, me, identity))
  {
    var line := TemplateRemark(code, tb, chain, te, mb, modelChain, me, identity, eol);
    var tf, tt := tb + ":" + chain, te + ":" + chain;
    var mf, mt := mb + ":" + modelChain, me + ":" + modelChain;
    var runs := [code, tf, tt, mf, mt];
    var last := identity + "%";
    assert Runs(runs) by {
      NoSpaceColon(tb, chain);
      NoSpaceColon(te, chain);
      NoSpaceColon(mb, modelChain);
      NoSpaceColon(me, modelChain);
      FiveRuns(code, tf, tt, mf, mt);
    }
    assert NoSpace(last) by {
      assert forall k :: 0 <= k < |identity| ==> last[k] == identity[k];
    }
    ReadTemplateFields(runs, last, eol);
    SplitLastColonOf(tb, chain);
    SplitLastColonOf(te, chain);
    SplitLastColonOf(mb, modelChain);
    SplitLastColonOf(me, modelChain);
    assert BeforeLastPercent(last) == Some(identity) by {
      BeforeLastPercentSpec(last);
      assert last[|identity|] == '%';
      assert last[..|identity|] == identity;
    }
    MatchTemplateOf(line, runs, last, TemplateStats(code, tb, chain, te, mb, me, identity));
  }

  /** `MatchTemplate` from the runs it reads. */
  lemma MatchTemplateOf(line: string, runs: seq<string>, last: string, stats: TemplateStats)
    requires StartsWith(line, TemplatePrefix)
    requires var rr := ReadRuns(line, |TemplatePrefix|, TemplateSeparators);
      && rr.Some? && rr.value.0 == runs && Token(line, rr.value.1) == last
    requires |runs| == 5 && runs[0] == stats.code
    requires SplitLastColon(runs[1]).Some? && SplitLastColon(runs[1]).value.0 == stats.templateBegin
    requires SplitLastColon(runs[1]).value.1 == stats.templateChain
    requires SplitLastColon(runs[2]).Some? && SplitLastColon(runs[2]).value.0 == stats.templateEnd
    requires SplitLastColon(runs[3]).Some? && SplitLastColon(runs[3]).value.0 == stats.modelBegin
    requires SplitLastColon(runs[4]).Some? && SplitLastColon(runs[4]).value.0 == stats.modelEnd
    requires BeforeLastPercent(last) == Some(stats.identity)
    ensures MatchTemplate(line) == Some(stats)
  {
  }

  /** The five runs of a statistics record with their literals. */
  lemma RunsLayout(code: string, tf: string, tt: string, mf: string, mt: string)
    ensures Interleave([code, tf, tt, mf, mt], TemplateSeparators)
      == code + " " + (tf + " - " + (tt + " MODELS " + (mf + " - " + (mt + " AT "))))
  {
    var seps := TemplateSeparators;
    assert Interleave([mt], seps[4..]) == mt + " AT " + Interleave([], []);
    assert Interleave([mt], seps[4..]) == mt + " AT ";
    assert Interleave([mf, mt], seps[3..]) == mf + " - " + Interleave([mt], seps[4..]);
    assert Interleave([tt, mf, mt], seps[2..]) == tt + " MODELS " + Interleave([mf, mt], seps[3..]);
    assert Interleave([tf, tt, mf, mt], seps[1..]) == tf + " - " + Interleave([tt, mf, mt], seps[2..]);
    assert Interleave([code, tf, tt, mf, mt], seps) == code + " " + Interleave([tf, tt, mf, mt], seps[1..]);
  }

  /** A token, a colon and a token make one token. */
  lemma NoSpaceColon(a: string, b: string)
    requires NoSpace(a) && NoSpace(b)
    ensures NoSpace(a + ":" + b)
  {
    var t := a + ":" + b;
    forall k | 0 <= k < |t| ensures !IsSpace(t[k]) {
      if k < |a| {
        assert t[k] == a[k];
      } else if k > |a| {
        assert t[k] == b[k - |a| - 1];
      }
    }
  }

  /** A path record in MODELLER's layout is read back. */
  lemma TemplatePathRoundTrip(code: string, path: string, eol: string)
    requires WellFormedToken(code) && WellFormedToken(path)
    requires eol == [] || IsSpace(eol[0])
    ensures MatchTemplatePath(TemplatePathPrefix + code + " " + path + eol) == Some((code, path))
  {
    var line := TemplatePathPrefix + code + " " + path + eol;
    assert line[..|TemplatePathPrefix|] == TemplatePathPrefix;
    TokenThenOf(TemplatePathPrefix, code, " ", path + eol);
    assert line == TemplatePathPrefix + code + " " + (path + eol);
    TokenOf(TemplatePathPrefix + code + " ", path, eol);
  }

  /** An alignment record in MODELLER's layout is read back. */
  lemma AlignmentRoundTrip(path: string, eol: string)
    requires WellFormedToken(path)
    requires eol == [] || IsSpace(eol[0])
    ensures MatchAlignment(AlignmentPrefix + path + eol) == Some(path)
  {
    var line := AlignmentPrefix + path + eol;
    assert line[..|AlignmentPrefix|] == AlignmentPrefix;
    TokenOf(AlignmentPrefix, path, eol);
  }

  // ---------------------------------------------------------------------
  // What the three patterns accept

  /** `(\S+)` at `i` captures `t` and, being greedy, all of the run:
      whitespace or the end of the line follows it. */
  ghost predicate RunAt(s: string, i: nat, t: string) {
    && t != [] && NoSpace(t)
    && i + |t| <= |s| && s[i..i + |t|] == t
    && (i + |t| < |s| ==> IsSpace(s[i + |t|]))
  }

  /** The run at `i` is the capture when there is one, and it is the only
      one. */
  lemma TokenIsRunAt(s: string, i: nat)
    requires i <= |s|
    ensures Token(s, i) != [] ==> RunAt(s, i, Token(s, i))
    ensures forall t :: RunAt(s, i, t) ==> t == Token(s, i)
  {
    var n := NonSpaceRun(s, i);
    NonSpaceRunIsRun(s, i);
    forall t | RunAt(s, i, t) ensures t == Token(s, i) {
    }
  }

  /** A run followed by a space is a run followed by the literal " ". */
  lemma RunAtThenSpace(s: string, i: nat, t: string)
    requires RunAt(s, i, t) && i + |t| < |s| && s[i + |t|] == ' '
    ensures RunThen(s, i, |t|, " ")
  {
    assert s[i + |t|..i + |t| + 1] == [s[i + |t|]];
  }

  /** `(\S+)` followed by each literal of `seps` in turn, from `i`: the
      runs captured, and `e` is where the last literal ends. */
  ghost predicate RunsAt(s: string, i: nat, runs: seq<string>, seps: seq<string>, e: nat)
    decreases |runs|
  {
    && |runs| == |seps|
    && if runs == [] then e == i
       else
         && RunThen(s, i, |runs[0]|, seps[0])
         && runs[0] == s[i..i + |runs[0]|]
         && RunsAt(s, i + |runs[0]| + |seps[0]|, runs[1..], seps[1..], e)
  }

  /** What `ReadRuns` reads is a match of the pattern at `i`. */
  lemma {:induction false} ReadRunsMatches(s: string, i: nat, seps: seq<string>)
    requires i <= |s| && Separators(seps)
    ensures var r := ReadRuns(s, i, seps);
      r.Some? ==> RunsAt(s, i, r.value.0, seps, r.value.1)
    decreases |seps|
  {
    if seps != [] && ReadRuns(s, i, seps).Some? {
      var t, j, ts, e := ReadRunsStep(s, i, seps);
      TokenThenRun(s, i, seps[0]);
      ReadRunsMatches(s, j, seps[1..]);
      RunsAtCons(s, i, t, ts, seps, e);
    }
  }

  /** A successful `ReadRuns` is a run and its literal, then the rest. */
  lemma ReadRunsStep(s: string, i: nat, seps: seq<string>) returns (t: string, j: nat, ts: seq<string>, e: nat)
    requires i <= |s| && Separators(seps) && seps != [] && ReadRuns(s, i, seps).Some?
    ensures Separators(seps[1..])
    ensures TokenThen(s, i, seps[0]) == Some((t, j)) && j <= |s|
    ensures ReadRuns(s, j, seps[1..]) == Some((ts, e))
    ensures ReadRuns(s, i, seps) == Some(([t] + ts, e))
  {
    t, j := TokenThen(s, i, seps[0]).value.0, TokenThen(s, i, seps[0]).value.1;
    ts, e := ReadRuns(s, j, seps[1..]).value.0, ReadRuns(s, j, seps[1..]).value.1;
  }

  /** What `TokenThen` reads is a run followed by the literal. */
  lemma TokenThenRun(s: string, i: nat, sep: string)
    requires i <= |s| && sep != [] && sep[0] == ' ' && TokenThen(s, i, sep).Some?
    ensures RunThen(s, i, |TokenThen(s, i, sep).value.0|, sep)
  {
    NonSpaceRunIsRun(s, i);
  }

  /** A run and its literal, then a match of the remaining literals. */
  lemma RunsAtCons(s: string, i: nat, t: string, ts: seq<string>, seps: seq<string>, e: nat)
    requires seps != [] && RunThen(s, i, |t|, seps[0]) && t == s[i..i + |t|]
    requires RunsAt(s, i + |t| + |seps[0]|, ts, seps[1..], e)
    ensures RunsAt(s, i, [t] + ts, seps, e)
  {
    assert ([t] + ts)[1..] == ts;
  }

  /** A match of the pattern at `i` is the one `ReadRuns` reads: the
      pattern captures at most one sequence of runs. */
  lemma {:induction false} RunsAtUnique(s: string, i: nat, seps: seq<string>, runs: seq<string>, e: nat)
    requires i <= |s| && Separators(seps) && RunsAt(s, i, runs, seps, e)
    ensures ReadRuns(s, i, seps) == Some((runs, e))
    decreases |seps|
  {
    if seps != [] {
      RunThenIsRun(s, i, |runs[0]|, seps[0]);
      var j := i + |runs[0]| + |seps[0]|;
      assert TokenThen(s, i, seps[0]) == Some((runs[0], j));
      RunsAtUnique(s, j, seps[1..], runs[1..], e);
      assert [runs[0]] + runs[1..] == runs;
    }
  }

  /** `(\S+):\S+` over a whole run: the greedy group is the front of the
      run up to its last colon that still has a character after it. */
  ghost predicate ColonFront(t: string, front: string) {
    && 1 <= |front| && |front| + 1 < |t|
    && t[..|front|] == front && t[|front|] == ':'
    && forall k :: |front| < k < |t| - 1 ==> t[k] != ':'
  }

  /** `(\S+)%` over a whole run: the greedy group is the front of the run
      up to its last percent sign. */
  ghost predicate PercentFront(t: string, front: string) {
    && 1 <= |front| && |front| < |t|
    && t[..|front|] == front && t[|front|] == '%'
    && forall k :: |front| < k < |t| ==> t[k] != '%'
  }

  /** `SplitLastColon` gives the greedy groups of a run, and fails exactly
      when the run has no such groups. */
  lemma SplitLastColonIsFront(t: string)
    ensures SplitLastColon(t).Some? ==>
      && ColonFront(t, SplitLastColon(t).value.0)
      && SplitLastColon(t).value.1 == t[|SplitLastColon(t).value.0| + 1..]
    ensures (exists front :: ColonFront(t, front)) ==> SplitLastColon(t).Some?
  {
    SplitLastColonSpec(t);
    if SplitLastColon(t).Some? {
      var (a, b) := SplitLastColon(t).value;
      assert t[..|a|] == a && t[|a|] == ':';
    }
    if exists front :: ColonFront(t, front) {
      var front :| ColonFront(t, front);
      assert t[|front|] == ':';
    }
  }

  /** `BeforeLastPercent` gives the greedy group of a run, and fails
      exactly when the run has none. */
  lemma BeforeLastPercentIsFront(t: string)
    ensures BeforeLastPercent(t).Some? ==> PercentFront(t, BeforeLastPercent(t).value)
    ensures (exists front :: PercentFront(t, front)) ==> BeforeLastPercent(t).Some?
  {
    BeforeLastPercentSpec(t);
    if exists front :: PercentFront(t, front) {
      var front :| PercentFront(t, front);
      assert t[|front|] == '%';
    }
  }

  /** The ALIGNMENT pattern matches exactly when the prefix is followed by
      a character that is not whitespace, and then captures the whole run
      of such characters. */
  lemma AlignmentMatches(line: string)
    ensures MatchAlignment(line).Some?
      <==> StartsWith(line, AlignmentPrefix) && exists t :: RunAt(line, |AlignmentPrefix|, t)
    ensures MatchAlignment(line).Some?
      <==> StartsWith(line, AlignmentPrefix) && |AlignmentPrefix| < |line| && !IsSpace(line[|AlignmentPrefix|])
    ensures MatchAlignment(line).Some? ==> RunAt(line, |AlignmentPrefix|, MatchAlignment(line).value)
  {
    if StartsWith(line, AlignmentPrefix) {
      TokenIsRunAt(line, |AlignmentPrefix|);
      if |AlignmentPrefix| < |line| && !IsSpace(line[|AlignmentPrefix|]) {
        assert NonSpaceRun(line, |AlignmentPrefix|) > 0;
      }
      if exists t :: RunAt(line, |AlignmentPrefix|, t) {
        var t :| RunAt(line, |AlignmentPrefix|, t);
        assert t[0] == line[|AlignmentPrefix|];
      }
    }
  }

  /** The groups of `REMARK   6 TEMPLATE PATH (\S+) (\S+)`: two runs
      separated by one space. */
  ghost predicate TemplatePathGroups(line: string, code: string, path: string) {
    && StartsWith(line, TemplatePathPrefix)
    && RunAt(line, |TemplatePathPrefix|, code)
    && |TemplatePathPrefix| + |code| < |line| && line[|TemplatePathPrefix| + |code|] == ' '
    && RunAt(line, |TemplatePathPrefix| + |code| + 1, path)
  }

  /** A run followed by a space is the whole run. */
  lemma RunThenSpaceIsRunAt(s: string, i: nat, n: nat)
    requires RunThen(s, i, n, " ")
    ensures RunAt(s, i, s[i..i + n]) && s[i + n] == ' '
  {
    assert s[i + n..i + n + 1][0] == s[i + n];
  }

  /** What `MatchTemplatePath` returns are the groups of a match. */
  lemma TemplatePathMatchSound(line: string)
    requires MatchTemplatePath(line).Some?
    ensures TemplatePathGroups(line, MatchTemplatePath(line).value.0, MatchTemplatePath(line).value.1)
  {
    var p := |TemplatePathPrefix|;
    var head := TokenThen(line, p, " ");
    assert head.Some?;
    var code, j := head.value.0, head.value.1;
    TokenThenRun(line, p, " ");
    RunThenSpaceIsRunAt(line, p, |code|);
    TokenIsRunAt(line, j);
  }

  /** Whenever the pattern matches, `MatchTemplatePath` returns its
      groups. */
  lemma TemplatePathMatchComplete(line: string, code: string, path: string)
    requires TemplatePathGroups(line, code, path)
    ensures MatchTemplatePath(line) == Some((code, path))
  {
    var p := |TemplatePathPrefix|;
    RunAtThenSpace(line, p, code);
    RunThenIsRun(line, p, |code|, " ");
    var j := p + |code| + 1;
    assert TokenThen(line, p, " ") == Some((code, j));
    TokenIsRunAt(line, j);
  }

  /** The TEMPLATE PATH pattern matches exactly when its groups exist, and
      then `MatchTemplatePath` returns them. */
  lemma TemplatePathMatches(line: string)
    ensures MatchTemplatePath(line).Some? <==> exists code, path :: TemplatePathGroups(line, code, path)
    ensures MatchTemplatePath(line).Some? ==>
      TemplatePathGroups(line, MatchTemplatePath(line).value.0, MatchTemplatePath(line).value.1)
  {
    if MatchTemplatePath(line).Some? {
      TemplatePathMatchSound(line);
    }
    forall code, path | TemplatePathGroups(line, code, path) ensures MatchTemplatePath(line).Some? {
      TemplatePathMatchComplete(line, code, path);
    }
  }

  /** The groups of the TEMPLATE pattern: the five runs with their
      literals, the greedy splits of the four range runs at a colon, and
      the final run up to its last percent sign. */
  ghost predicate TemplateGroups(line: string, runs: seq<string>, p: nat, last: string, g: TemplateStats) {
    && StartsWith(line, TemplatePrefix)
    && |runs| == 5
    && RunsAt(line, |TemplatePrefix|, runs, TemplateSeparators, p)
    && runs[0] == g.code
    && ColonFront(runs[1], g.templateBegin) && g.templateChain == runs[1][|g.templateBegin| + 1..]
    && ColonFront(runs[2], g.templateEnd)
    && ColonFront(runs[3], g.modelBegin)
    && ColonFront(runs[4], g.modelEnd)
    && RunAt(line, p, last) && PercentFront(last, g.identity)
  }

  /** What `MatchTemplate` returns is a match of the pattern. */
  lemma TemplateMatchSound(line: string)
    requires MatchTemplate(line).Some?
    ensures exists runs, p, last :: TemplateGroups(line, runs, p, last, MatchTemplate(line).value)
  {
    SeparatorsOfTemplate();
    var rr := ReadRuns(line, |TemplatePrefix|, TemplateSeparators);
    assert rr.Some?;
    ReadRunsMatches(line, |TemplatePrefix|, TemplateSeparators);
    var runs, p := rr.value.0, rr.value.1;
    var last := Token(line, p);
    var g := MatchTemplate(line).value;
    assert g == TemplateStats(runs[0], SplitLastColon(runs[1]).value.0, SplitLastColon(runs[1]).value.1,
                              SplitLastColon(runs[2]).value.0, SplitLastColon(runs[3]).value.0,
                              SplitLastColon(runs[4]).value.0, BeforeLastPercent(last).value);
    SplitLastColonIsFront(runs[1]);
    SplitLastColonIsFront(runs[2]);
    SplitLastColonIsFront(runs[3]);
    SplitLastColonIsFront(runs[4]);
    BeforeLastPercentIsFront(last);
    TokenIsRunAt(line, p);
    assert TemplateGroups(line, runs, p, last, g);
  }

  /** Whenever the pattern matches, `MatchTemplate` finds a match. */
  lemma TemplateMatchComplete(line: string, runs: seq<string>, p: nat, last: string, g: TemplateStats)
    requires TemplateGroups(line, runs, p, last, g)
    ensures MatchTemplate(line).Some?
  {
    SeparatorsOfTemplate();
    RunsAtUnique(line, |TemplatePrefix|, TemplateSeparators, runs, p);
    SplitLastColonIsFront(runs[1]);
    SplitLastColonIsFront(runs[2]);
    SplitLastColonIsFront(runs[3]);
    SplitLastColonIsFront(runs[4]);
    assert p <= |line|;
    TokenIsRunAt(line, p);
    BeforeLastPercentIsFront(last);
  }

  /** The TEMPLATE pattern matches exactly when its groups exist, and then
      `MatchTemplate` returns the greedy groups. */
  lemma TemplateMatches(line: string)
    ensures MatchTemplate(line).Some? <==> exists runs, p, last, g :: TemplateGroups(line, runs, p, last, g)
    ensures MatchTemplate(line).Some? ==>
      exists runs, p, last :: TemplateGroups(line, runs, p, last, MatchTemplate(line).value)
  {
    if MatchTemplate(line).Some? {
      TemplateMatchSound(line);
    }
    forall runs, p, last, g | TemplateGroups(line, runs, p, last, g) ensures MatchTemplate(line).Some? {
      TemplateMatchComplete(line, runs, p, last, g);
    }
  }

  // ---------------------------------------------------------------------
  // Scanning the header

  /** What the scan has gathered: the path of each template named in a
      TEMPLATE PATH record (resolved against the model's own path), the
      alignment file's location, and the statistics records in order. */
  datatype RemarkScan = RemarkScan(
    paths: map<string, string>,
    alignment: Option<Location>,
    stats: seq<TemplateStats>)

  const NothingFound: RemarkScan := RemarkScan(map[], None, [])

  /** The location of the alignment file named by a record. */
  function AlignmentLocation(path: string): Location {
    InputFileLocation(path, None, Some(AlignmentDetails))
  }

  /** What the three patterns make of one line. */
  datatype LineMatch = LineMatch(
    path: Option<(string, string)>,
    alignment: Option<string>,
    stats: Option<TemplateStats>)

  function MatchLine(line: string): LineMatch {
    LineMatch(MatchTemplatePath(line), MatchAlignment(line), MatchTemplate(line))
  }

  /** `f` applied to every element. */
  function Each<T, U>(f: T -> U, s: seq<T>): (r: seq<U>)
    ensures |r| == |s|
    ensures forall k :: 0 <= k < |s| ==> r[k] == f(s[k])
  {
    seq(|s|, k requires 0 <= k < |s| => f(s[k]))
  }

  lemma EachConcat<T, U>(f: T -> U, a: seq<T>, b: seq<T>)
    ensures Each(f, a + b) == Each(f, a) + Each(f, b)
  {
    assert forall k :: 0 <= k < |a| ==> (a + b)[k] == a[k];
    assert forall k :: |a| <= k < |a| + |b| ==> (a + b)[k] == b[k - |a|];
  }

  lemma EachStep<T, U>(f: T -> U, s: seq<T>, i: nat)
    requires i < |s|
    ensures Each(f, s[..i + 1]) == Each(f, s[..i]) + [f(s[i])]
  {
  }

  /** The matches of every line. */
  function MatchLines(lines: seq<string>): (ms: seq<LineMatch>)
    ensures |ms| == |lines|
  {
    Each(MatchLine, lines)
  }

  /** One line of the scan: a path record sets (or replaces) the code's
      path, an alignment record replaces the alignment file, a statistics
      record is queued. */
  function ScanLine(scan: RemarkScan, m: LineMatch, pdbname: string,
                    resolve: (string, string) -> string): RemarkScan
  {
    RemarkScan(PathsAfter(scan.paths, m.path, pdbname, resolve),
               AlignmentAfter(scan.alignment, m.alignment, pdbname, resolve),
               StatsAfter(scan.stats, m.stats))
  }

  function PathsAfter(paths: map<string, string>, path: Option<(string, string)>, pdbname: string,
                      resolve: (string, string) -> string): map<string, string>
  {
    if path.Some? then paths[path.value.0 := resolve(pdbname, path.value.1)] else paths
  }

  function AlignmentAfter(alignment: Option<Location>, path: Option<string>, pdbname: string,
                          resolve: (string, string) -> string): Option<Location>
  {
    if path.Some? then Some(AlignmentLocation(resolve(pdbname, path.value))) else alignment
  }

  function StatsAfter(stats: seq<TemplateStats>, record: Option<TemplateStats>): seq<TemplateStats> {
    if record.Some? then stats + [record.value] else stats
  }

  /** The scan of a run of matched lines, from an empty start. */
  function ScanMatches(ms: seq<LineMatch>, pdbname: string,
                       resolve: (string, string) -> string): RemarkScan
  {
    if ms == [] then NothingFound
    else ScanLine(ScanMatches(ms[..|ms| - 1], pdbname, resolve), ms[|ms| - 1], pdbname, resolve)
  }

  /** The scan of a run of lines. */
  function ScanRemarks(lines: seq<string>, pdbname: string,
                       resolve: (string, string) -> string): RemarkScan
  {
    ScanMatches(MatchLines(lines), pdbname, resolve)
  }

  /** Scanning two runs of lines: the later run's paths override the
      earlier run's for the same code, its last alignment record wins if
      it has one, and the statistics records follow on. */
  lemma {:induction false} ScanMatchesConcat(a: seq<LineMatch>, b: seq<LineMatch>, pdbname: string,
                                             resolve: (string, string) -> string)
    ensures var sa, sb, sab := ScanMatches(a, pdbname, resolve), ScanMatches(b, pdbname, resolve),
                             ScanMatches(a + b, pdbname, resolve);
      && sab.paths == sa.paths + sb.paths
      && sab.alignment == (if sb.alignment.Some? then sb.alignment else sa.alignment)
      && sab.stats == sa.stats + sb.stats
    decreases |b|
  {
    if b == [] {
      assert a + b == a;
    } else {
      var b' := b[..|b| - 1];
      var m := b[|b| - 1];
      assert (a + b)[..|a + b| - 1] == a + b';
      assert (a + b)[|a + b| - 1] == m;
      ScanMatchesConcat(a, b', pdbname, resolve);
      if m.path.Some? {
        MergeUpdate(ScanMatches(a, pdbname, resolve).paths, ScanMatches(b', pdbname, resolve).paths,
                    m.path.value.0, resolve(pdbname, m.path.value.1));
      }
    }
  }

  /** Updating the later map of a merge updates the merge. */
  lemma MergeUpdate<K, V>(m: map<K, V>, n: map<K, V>, k: K, v: V)
    ensures (m + n)[k := v] == m + n[k := v]
  {
  }

  /** The same for lines. */
  lemma ScanRemarksConcat(a: seq<string>, b: seq<string>, pdbname: string,
                          resolve: (string, string) -> string)
    ensures var sa, sb, sab := ScanRemarks(a, pdbname, resolve), ScanRemarks(b, pdbname, resolve),
                             ScanRemarks(a + b, pdbname, resolve);
      && sab.paths == sa.paths + sb.paths
      && sab.alignment == (if sb.alignment.Some? then sb.alignment else sa.alignment)
      && sab.stats == sa.stats + sb.stats
  {
    EachConcat(MatchLine, a, b);
    ScanMatchesConcat(MatchLines(a), MatchLines(b), pdbname, resolve);
  }

  /** Reading one more line. */
  lemma ScanRemarksStep(lines: seq<string>, i: nat, pdbname: string,
                        resolve: (string, string) -> string)
    requires i < |lines|
    ensures ScanRemarks(lines[..i + 1], pdbname, resolve)
      == ScanLine(ScanRemarks(lines[..i], pdbname, resolve), MatchLine(lines[i]), pdbname, resolve)
  {
    EachStep(MatchLine, lines, i);
    var ms := MatchLines(lines[..i + 1]);
    assert ms[..|ms| - 1] == MatchLines(lines[..i]);
  }

  /** The alignment is that of the last ALIGNMENT record, and there is none
      exactly when no line is one. */
  lemma {:induction false} LastAlignmentWins(ms: seq<LineMatch>, pdbname: string,
                                             resolve: (string, string) -> string)
    ensures var aln := ScanMatches(ms, pdbname, resolve).alignment;
      && (aln.None? <==> forall k :: 0 <= k < |ms| ==> ms[k].alignment.None?)
      && (aln.Some? ==>
            exists k ::
              && 0 <= k < |ms| && ms[k].alignment.Some?
              && aln == Some(AlignmentLocation(resolve(pdbname, ms[k].alignment.value)))
              && forall j :: k < j < |ms| ==> ms[j].alignment.None?)
    decreases |ms|
  {
    if ms != [] {
      var init := ms[..|ms| - 1];
      var last := ms[|ms| - 1];
      LastAlignmentWins(init, pdbname, resolve);
      assert forall k :: 0 <= k < |init| ==> init[k] == ms[k];
      if last.alignment.None? && ScanMatches(init, pdbname, resolve).alignment.Some? {
        var k :| && 0 <= k < |init| && init[k].alignment.Some?
                 && ScanMatches(init, pdbname, resolve).alignment
                    == Some(AlignmentLocation(resolve(pdbname, init[k].alignment.value)))
                 && forall j :: k < j < |init| ==> init[j].alignment.None?;
        assert forall j :: k < j < |ms| ==> ms[j].alignment.None?;
      }
    }
  }

  /** A code is in the path map exactly when some TEMPLATE PATH record
      names it. */
  lemma {:induction false} PathKeys(ms: seq<LineMatch>, pdbname: string,
                                    resolve: (string, string) -> string, code: string)
    ensures code in ScanMatches(ms, pdbname, resolve).paths <==>
      exists k :: 0 <= k < |ms| && ms[k].path.Some? && ms[k].path.value.0 == code
    decreases |ms|
  {
    if ms != [] {
      var init := ms[..|ms| - 1];
      PathKeys(init, pdbname, resolve, code);
      assert forall k :: 0 <= k < |init| ==> init[k] == ms[k];
      if code in ScanMatches(ms, pdbname, resolve).paths && code !in ScanMatches(init, pdbname, resolve).paths {
        assert ms[|ms| - 1].path.Some?;
      }
    }
  }

  /** The path kept for a code is the one of the last record that names
      it. */
  lemma LastPathWins(a: seq<LineMatch>, m: LineMatch, b: seq<LineMatch>, pdbname: string,
                     resolve: (string, string) -> string)
    requires m.path.Some?
    requires forall k :: 0 <= k < |b| && b[k].path.Some? ==> b[k].path.value.0 != m.path.value.0
    ensures var code := m.path.value.0;
      && code in ScanMatches(a + [m] + b, pdbname, resolve).paths
      && ScanMatches(a + [m] + b, pdbname, resolve).paths[code] == resolve(pdbname, m.path.value.1)
  {
    var code := m.path.value.0;
    ScanMatchesConcat(a + [m], b, pdbname, resolve);
    PathKeys(b, pdbname, resolve, code);
    assert (a + [m])[..|a + [m]| - 1] == a;
  }

  /** One statistics record per TEMPLATE line, in the order of the lines. */
  lemma StatsInOrder(a: seq<LineMatch>, m: LineMatch, b: seq<LineMatch>, pdbname: string,
                     resolve: (string, string) -> string)
    ensures ScanMatches(a + [m] + b, pdbname, resolve).stats
      == ScanMatches(a, pdbname, resolve).stats
         + (if m.stats.Some? then [m.stats.value] else [])
         + ScanMatches(b, pdbname, resolve).stats
  {
    ScanMatchesConcat(a + [m], b, pdbname, resolve);
    assert (a + [m])[..|a + [m]| - 1] == a;
  }

  /** The body of that loop for one header line: the three patterns are
      tried in turn, and each that matches updates its part of the scan. */
  method ReadRemark(templatePathMap: map<string, string>, alnfile: Option<Location>,
                    templateInfo: seq<TemplateStats>, line: string, pdbname: string,
                    resolve: (string, string) -> string)
    returns (paths: map<string, string>, alignment: Option<Location>, stats: seq<TemplateStats>)
    ensures RemarkScan(paths, alignment, stats)
      == ScanLine(RemarkScan(templatePathMap, alnfile, templateInfo), MatchLine(line), pdbname, resolve)
  {
    paths, alignment, stats := templatePathMap, alnfile, templateInfo;
    var m := MatchTemplatePath(line);
    if m.Some? {
      paths := paths[m.value.0 := resolve(pdbname, m.value.1)];
    }
    var a := MatchAlignment(line);
    if a.Some? {
      alignment := Some(AlignmentLocation(resolve(pdbname, a.value)));
    }
    var t := MatchTemplate(line);
    if t.Some? {
      stats := stats + [t.value];
    }
  }

  /** The loop of `_get_templates` that reads the header: up to the first
      ATOM line, each line may set a template path, replace the alignment
      file or queue a statistics record. */
  method ScanTemplateRemarks(lines: seq<string>, pdbname: string,
                             resolve: (string, string) -> string)
    returns (scan: RemarkScan)
    ensures scan == ScanRemarks(HeaderLines(lines), pdbname, resolve)
  {
    var templatePathMap: map<string, string> := map[];
    var alnfile: Option<Location> := None;
    var templateInfo: seq<TemplateStats> := [];
    var i := 0;
    assert MatchLines(lines[..0]) == [];
    while i < |lines|
      invariant i <= |lines|
      invariant forall k :: 0 <= k < i ==> !IsAtom(lines[k])
      invariant RemarkScan(templatePathMap, alnfile, templateInfo) == ScanRemarks(lines[..i], pdbname, resolve)
    {
      var line := lines[i];
      if IsAtom(line) {
        break;
      }
      ScanRemarksStep(lines, i, pdbname, resolve);
      templatePathMap, alnfile, templateInfo :=
        ReadRemark(templatePathMap, alnfile, templateInfo, line, pdbname, resolve);
      i := i + 1;
    }
    HeaderLinesAt(lines, i);
    scan := RemarkScan(templatePathMap, alnfile, templateInfo);
  }
}
