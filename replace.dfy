/**
 * Replace mode (`-r`): each input line is split at the delimiter `-d`, field `-f`
 * (counted from 1) is read as an epoch second and replaced by its timestamp, and
 * the line is rejoined and written out. A line without that field, or whose field
 * is not a decimal 64-bit integer, is reported on the error stream and skipped.
 * The last field text that was read, and its timestamp, are remembered so that a
 * repeated value is not read and formatted again.
 */
module Replace {
  import opened Wrappers
  import opened Text
  import opened Decimal
  import opened UtcTime

  /**
   * The settings of replace mode: the delimiter, the 1-based field index, and the
   * rendering of an epoch second as a timestamp, which `TimestampFormat` picks.
   */
  datatype Config = Config(delim: string, fno: int, format: int -> string)

  predicate ValidConfig(cfg: Config) {
    cfg.delim != [] && cfg.fno >= 1
  }

  /**
   * The timestamp rendering `-l` selects: the host's rendering in local time (layout
   * `2006-01-02T15:04:05-0700`, which this model takes as given), or else UTC.
   */
  function TimestampFormat(local: bool, localFormat: int -> string): (fmt: int -> string)
    ensures local ==> forall n :: fmt(n) == localFormat(n)
    ensures !local ==> forall n :: fmt(n) == FormatUTC(n)
  {
    if local then localFormat else FormatUTC
  }

  datatype LineError = TooFewFields(count: nat) | NotAnEpoch(field: string)

  /** What happens to one line: it is written out, or reported and skipped. */
  datatype Outcome = Emitted(line: string) | Rejected(error: LineError)

  /** A report on the error stream: the 1-based line number and what was wrong. */
  datatype Diagnostic = Diagnostic(lno: nat, error: LineError)

  /** The target field of a line, if the line has that many fields. */
  function Target(cfg: Config, line: string): (r: Option<string>)
    requires ValidConfig(cfg)
    ensures r.Some? <==> cfg.fno <= |Split(line, cfg.delim)|
  {
    var f := Split(line, cfg.delim);
    if cfg.fno > |f| then None else Some(f[cfg.fno - 1])
  }

  /** The outcome of a line without any cache: the specification the replacer is held to. */
  function Expected(cfg: Config, line: string): (o: Outcome)
    requires ValidConfig(cfg)
    ensures o.Emitted? <==> Target(cfg, line).Some? && ParseInt64(Target(cfg, line).value).Some?
  {
    var f := Split(line, cfg.delim);
    if cfg.fno > |f| then Rejected(TooFewFields(|f|))
    else match ParseInt64(f[cfg.fno - 1])
      case None => Rejected(NotAnEpoch(f[cfg.fno - 1]))
      case Some(n) => Emitted(Join(f[cfg.fno - 1 := cfg.format(n)], cfg.delim))
  }

  /**
   * A line is written out exactly when its target field exists and is a 64-bit
   * decimal; a line with too few fields is reported with its field count, and a
   * target field that is not an epoch is reported with its text.
   */
  lemma ExpectedCases(cfg: Config, line: string)
    requires ValidConfig(cfg)
    ensures var f := Split(line, cfg.delim);
            var k := cfg.fno - 1;
            var o := Expected(cfg, line);
            (o.Emitted? <==> k < |f| && ParseInt64(f[k]).Some?) &&
            (o == Rejected(TooFewFields(|f|)) <==> |f| <= k) &&
            (k < |f| && ParseInt64(f[k]).None? ==> o == Rejected(NotAnEpoch(f[k])))
  {
  }

  /**
   * A line that is written out is the input with the target field, and nothing
   * else, replaced by its timestamp: the text before and after it is kept as it was.
   */
  lemma ExpectedReplacesOnlyTarget(cfg: Config, line: string, f: seq<string>, k: nat)
    requires ValidConfig(cfg) && Expected(cfg, line).Emitted?
    requires f == Split(line, cfg.delim) && k == cfg.fno - 1
    ensures k < |f| && ParseInt64(f[k]).Some?
    ensures line == Before(f, k, cfg.delim) + f[k] + After(f, k, cfg.delim)
    ensures Expected(cfg, line).line == Before(f, k, cfg.delim) + cfg.format(ParseInt64(f[k]).value) + After(f, k, cfg.delim)
  {
    var ts := cfg.format(ParseInt64(f[k]).value);
    assert Expected(cfg, line).line == Join(f[k := ts], cfg.delim);
    SplitReplaceJoin(line, cfg.delim, k, ts);
  }

  /** A line whose target field reads as `n` is written out with that field replaced by its timestamp. */
  lemma ExpectedEmits(cfg: Config, line: string, f: seq<string>, n: int, out: string)
    requires ValidConfig(cfg) && f == Split(line, cfg.delim)
    requires cfg.fno <= |f| && ParseInt64(f[cfg.fno - 1]) == Some(n)
    requires Join(f[cfg.fno - 1 := cfg.format(n)], cfg.delim) == out
    ensures Expected(cfg, line) == Emitted(out)
  {
  }

  /** Replacing field 2 of `id,1000000000,x` at commas in UTC mode gives `id,2001-09-09T01:46:40Z,x`. */
  lemma ReplaceSample(cfg: Config, localFormat: int -> string, line: string, out: string)
    requires cfg == Config(",", 2, TimestampFormat(false, localFormat))
    requires line == "id,1000000000,x" && out == "id,2001-09-09T01:46:40Z,x"
    ensures Expected(cfg, line) == Emitted(out)
  {
    var f := ["id", "1000000000", "x"];
    SampleSplit(line, f);
    SampleParse();
    assert cfg.format(1000000000) == "2001-09-09T01:46:40Z" by {
      FormatUTCBillion();
    }
    SampleJoin(f[1 := cfg.format(1000000000)], out);
    ExpectedEmits(cfg, line, f, 1000000000, out);
  }

  lemma SampleSplit(line: string, f: seq<string>)
    requires line == "id,1000000000,x" && f == ["id", "1000000000", "x"]
    ensures Split(line, ",") == f
  {
    assert line == "id" + "," + "1000000000" + "," + "x";
    SampleFields("id", "1000000000", "x", line);
  }

  lemma SampleJoin(g: seq<string>, out: string)
    requires g == ["id", "2001-09-09T01:46:40Z", "x"] && out == "id,2001-09-09T01:46:40Z,x"
    ensures Join(g, ",") == out
  {
    JoinThree("id", "2001-09-09T01:46:40Z", "x", ",");
    SampleJoinText(out);
  }

  lemma SampleJoinText(out: string)
    requires out == "id,2001-09-09T01:46:40Z,x"
    ensures "id" + "," + "2001-09-09T01:46:40Z" + "," + "x" == out
  {
  }

  /** At field 2, `id,notanumber,x` is reported for its field. */
  lemma RejectSample(cfg: Config, line: string)
    requires cfg.delim == "," && cfg.fno == 2
    requires line == "id,notanumber,x"
    ensures Expected(cfg, line) == Rejected(NotAnEpoch("notanumber"))
  {
    RejectSplit(line, ["id", "notanumber", "x"]);
    ParseNoDigit("notanumber");
  }

  lemma RejectSplit(line: string, f: seq<string>)
    requires line == "id,notanumber,x" && f == ["id", "notanumber", "x"]
    ensures Split(line, ",") == f
  {
    assert line == "id" + "," + "notanumber" + "," + "x";
    SampleFields("id", "notanumber", "x", line);
  }

  /** At field 2, `onlyonefield` is reported for its field count, 1. */
  lemma ShortLineSample(cfg: Config, line: string)
    requires cfg.delim == "," && cfg.fno == 2
    requires line == "onlyonefield"
    ensures Expected(cfg, line) == Rejected(TooFewFields(1))
  {
    SplitSingle(line, ",");
  }

  lemma SampleFields(a: string, b: string, c: string, line: string)
    requires ',' !in a && ',' !in b && ',' !in c
    requires line == a + "," + b + "," + c
    ensures Split(line, ",") == [a, b, c]
  {
    JoinThree(a, b, c, ",");
    SplitJoin([a, b, c], ",");
  }

  lemma SampleParse()
    ensures ParseInt64("1000000000") == Some(1000000000)
  {
    assert NatText(1) == "1";
    NatTextTimesTen(1);
    NatTextTimesTen(10);
    NatTextTimesTen(100);
    NatTextTimesTen(1000);
    NatTextTimesTen(10000);
    NatTextTimesTen(100000);
    NatTextTimesTen(1000000);
    NatTextTimesTen(10000000);
    NatTextTimesTen(100000000);
    assert NatText(1000000000) == "1000000000";
    ParseNatText(1000000000);
  }

  lemma JoinThree(a: string, b: string, c: string, sep: string)
    ensures Join([a, b, c], sep) == a + sep + b + sep + c
  {
    assert [b, c][1..] == [c];
    assert Join([b, c], sep) == b + sep + c;
    assert [a, b, c][1..] == [b, c];
  }

  /**
   * The cache is coherent: empty before any field was read, and afterwards the
   * timestamp of the remembered field text, which is a valid epoch.
   */
  predicate CacheCoherent(cfg: Config, epochText: string, ts: string): (r: bool)
    ensures r ==> epochText == "" || ParseInt64(epochText).Some?
  {
    if epochText == "" then ts == ""
    else ParseInt64(epochText).Some? && ts == cfg.format(ParseInt64(epochText).value)
  }

  /**
   * A cache hit on a coherent, non-empty cache gives the line the cache-free
   * specification gives: the remembered timestamp is the one a fresh read of the
   * field would produce.
   */
  lemma CacheHitMeetsSpec(cfg: Config, line: string, epochText: string, ts: string)
    requires ValidConfig(cfg) && CacheCoherent(cfg, epochText, ts)
    requires epochText != "" && Target(cfg, line) == Some(epochText)
    ensures Expected(cfg, line) == Emitted(Join(Split(line, cfg.delim)[cfg.fno - 1 := ts], cfg.delim))
  {
  }

  /** The state of the replace loop: the single-entry cache `cacheEpoch` / `cacheTS`. */
  class Replacer {
    const cfg: Config
    var cacheEpoch: string
    var cacheTS: string

    ghost predicate Valid()
      reads this
    {
      ValidConfig(cfg) && CacheCoherent(cfg, cacheEpoch, cacheTS)
    }

    constructor (cfg: Config)
      requires ValidConfig(cfg)
      ensures Valid() && this.cfg == cfg
      ensures cacheEpoch == "" && cacheTS == ""
    {
      this.cfg := cfg;
      cacheEpoch := "";
      cacheTS := "";
    }

    /**
     * One pass of the loop body, as written: a target field equal to `cacheEpoch`
     * is a cache hit, even while the cache is still empty. The outcome is the
     * cache-free one, except that an empty target field before any epoch was read
     * leaves the line as it was and is written out. A skipped line leaves the cache
     * as it was.
     */
    method ProcessLine(line: string) returns (o: Outcome)
      requires Valid()
      modifies this
      ensures Valid()
      ensures o == if old(cacheEpoch) == "" && Target(cfg, line) == Some("") then Emitted(line) else Expected(cfg, line)
      ensures o.Rejected? ==> cacheEpoch == old(cacheEpoch) && cacheTS == old(cacheTS)
      ensures o.Emitted? ==> Target(cfg, line) == Some(cacheEpoch)
      ensures cacheEpoch != "" <==> old(cacheEpoch) != "" || Expected(cfg, line).Emitted?
    {
      var f := Split(line, cfg.delim);
      if cfg.fno > |f| {
        return Rejected(TooFewFields(|f|));
      }
      var k := cfg.fno - 1;
      if f[k] != cacheEpoch {
        var ts := ParseInt64(f[k]);
        if ts.None? {
          return Rejected(NotAnEpoch(f[k]));
        }
        cacheEpoch := f[k];
        cacheTS := cfg.format(ts.value);
      } else if cacheEpoch == "" {
        JoinSplit(line, cfg.delim);
        assert f[k := cacheTS] == f;
      }
      f := f[k := cacheTS];
      o := Emitted(Join(f, cfg.delim));
    }

    /**
     * The loop body with the cache hit guarded by a non-empty cache, so that an
     * empty field is always read, and rejected, like any other non-epoch text.
     * The outcome is the cache-free one.
     */
    method ProcessLineGuarded(line: string) returns (o: Outcome)
      requires Valid()
      modifies this
      ensures Valid()
      ensures o == Expected(cfg, line)
      ensures o.Rejected? ==> cacheEpoch == old(cacheEpoch) && cacheTS == old(cacheTS)
      ensures o.Emitted? ==> Target(cfg, line) == Some(cacheEpoch) && cacheEpoch != ""
    {
      var f := Split(line, cfg.delim);
      if cfg.fno > |f| {
        return Rejected(TooFewFields(|f|));
      }
      var k := cfg.fno - 1;
      if cacheEpoch == "" || f[k] != cacheEpoch {
        var ts := ParseInt64(f[k]);
        if ts.None? {
          return Rejected(NotAnEpoch(f[k]));
        }
        cacheEpoch := f[k];
        cacheTS := cfg.format(ts.value);
      }
      f := f[k := cacheTS];
      o := Emitted(Join(f, cfg.delim));
    }
  }

  /** The lines written out, in input order. */
  function Outputs(os: seq<Outcome>): seq<string>
  {
    if os == [] then []
    else Outputs(os[..|os| - 1]) + (if os[|os| - 1].Emitted? then [os[|os| - 1].line] else [])
  }

  /** The reports on the error stream, in input order, numbering lines from 1. */
  function Diagnostics(os: seq<Outcome>): seq<Diagnostic>
  {
    if os == [] then []
    else Diagnostics(os[..|os| - 1]) + (if os[|os| - 1].Rejected? then [Diagnostic(|os|, os[|os| - 1].error)] else [])
  }

  lemma PrefixSnoc<T>(s: seq<T>, n: nat)
    requires n < |s|
    ensures s[..n + 1] == s[..n] + [s[n]]
  {
  }

  lemma OutcomesSnoc(os: seq<Outcome>, o: Outcome)
    ensures Outputs(os + [o]) == Outputs(os) + (if o.Emitted? then [o.line] else [])
    ensures Diagnostics(os + [o]) == Diagnostics(os) + (if o.Rejected? then [Diagnostic(|os| + 1, o.error)] else [])
  {
    assert (os + [o])[..|os|] == os;
  }

  /** Every line is either written out or reported, never both and never neither. */
  lemma {:induction false} OutputsAndDiagnosticsCover(os: seq<Outcome>)
    ensures |Outputs(os)| + |Diagnostics(os)| == |os|
  {
    if os != [] {
      OutputsAndDiagnosticsCover(os[..|os| - 1]);
    }
  }

  /**
   * Each report names the line it is about: its number counts every line read
   * (skipped ones included), and the line's outcome is that error.
   */
  lemma {:induction false} DiagnosticsIdentifyLines(os: seq<Outcome>)
    ensures forall i :: 0 <= i < |Diagnostics(os)| ==>
              1 <= Diagnostics(os)[i].lno <= |os| && os[Diagnostics(os)[i].lno - 1] == Rejected(Diagnostics(os)[i].error)
    ensures forall i, j :: 0 <= i < j < |Diagnostics(os)| ==> Diagnostics(os)[i].lno < Diagnostics(os)[j].lno
  {
    if os != [] {
      var init := os[..|os| - 1];
      DiagnosticsIdentifyLines(init);
      assert forall i :: 0 <= i < |init| ==> init[i] == os[i];
    }
  }

  /** The cache-free outcomes of the lines. */
  function ExpectedOutcomes(cfg: Config, lines: seq<string>): (os: seq<Outcome>)
    requires ValidConfig(cfg)
    ensures |os| == |lines|
  {
    seq(|lines|, i requires 0 <= i < |lines| => Expected(cfg, lines[i]))
  }

  /** Some line before line `i` (0-based) had an epoch read from it, so the cache is no longer empty. */
  ghost predicate Primed(cfg: Config, lines: seq<string>, i: nat)
    requires ValidConfig(cfg) && i <= |lines|
  {
    exists j :: 0 <= j < i && Expected(cfg, lines[j]).Emitted?
  }

  /** The cache fills at the first line that has an epoch read from it, and stays filled. */
  lemma PrimedStep(cfg: Config, lines: seq<string>, i: nat)
    requires ValidConfig(cfg) && i < |lines|
    ensures Primed(cfg, lines, i + 1) <==> Primed(cfg, lines, i) || Expected(cfg, lines[i]).Emitted?
  {
    if Primed(cfg, lines, i + 1) && !Expected(cfg, lines[i]).Emitted? {
      var j :| 0 <= j < i + 1 && Expected(cfg, lines[j]).Emitted?;
      assert j < i;
    }
  }

  /** The outcome of line `i` (0-based) in the loop as written. */
  ghost function AsWrittenAt(cfg: Config, lines: seq<string>, i: nat): Outcome
    requires ValidConfig(cfg) && i < |lines|
  {
    if !Primed(cfg, lines, i) && Target(cfg, lines[i]) == Some("") then Emitted(lines[i])
    else Expected(cfg, lines[i])
  }

  ghost function AsWrittenOutcomes(cfg: Config, lines: seq<string>): (os: seq<Outcome>)
    requires ValidConfig(cfg)
    ensures |os| == |lines|
  {
    seq(|lines|, i requires 0 <= i < |lines| => AsWrittenAt(cfg, lines, i))
  }

  /**
   * `replaceEpoch` as written, over lines already read: the lines written out and
   * the reports made, as the loop as written produces them.
   */
  method ReplaceEpoch(cfg: Config, lines: seq<string>) returns (out: seq<string>, diags: seq<Diagnostic>)
    requires ValidConfig(cfg)
    ensures out == Outputs(AsWrittenOutcomes(cfg, lines))
    ensures diags == Diagnostics(AsWrittenOutcomes(cfg, lines))
  {
    var r := new Replacer(cfg);
    ghost var os := AsWrittenOutcomes(cfg, lines);
    var lno := 0;
    out, diags := [], [];
    while lno < |lines|
      invariant 0 <= lno <= |lines|
      invariant r.Valid() && r.cfg == cfg
      invariant r.cacheEpoch != "" <==> Primed(cfg, lines, lno)
      invariant out == Outputs(os[..lno]) && diags == Diagnostics(os[..lno])
    {
      var line := lines[lno];
      ghost var primed := Primed(cfg, lines, lno);
      ghost var emitted := Expected(cfg, line).Emitted?;
      PrimedStep(cfg, lines, lno);
      lno := lno + 1;
      var o := r.ProcessLine(line);
      assert r.cacheEpoch != "" <==> primed || emitted;
      assert os[lno - 1] == AsWrittenAt(cfg, lines, lno - 1);
      assert o == os[lno - 1];
      PrefixSnoc(os, lno - 1);
      OutcomesSnoc(os[..lno - 1], o);
      match o
      case Emitted(text) =>
        out := out + [text];
      case Rejected(e) =>
        diags := diags + [Diagnostic(lno, e)];
    }
    assert os[..lno] == os;
  }

  /**
   * The loop with the guarded cache hit: it writes out and reports exactly what the
   * cache-free specification does, line by line.
   */
  method ReplaceEpochGuarded(cfg: Config, lines: seq<string>) returns (out: seq<string>, diags: seq<Diagnostic>)
    requires ValidConfig(cfg)
    ensures out == Outputs(ExpectedOutcomes(cfg, lines))
    ensures diags == Diagnostics(ExpectedOutcomes(cfg, lines))
  {
    var r := new Replacer(cfg);
    ghost var os := ExpectedOutcomes(cfg, lines);
    var lno := 0;
    out, diags := [], [];
    while lno < |lines|
      invariant 0 <= lno <= |lines|
      invariant r.Valid() && r.cfg == cfg
      invariant out == Outputs(os[..lno]) && diags == Diagnostics(os[..lno])
    {
      var line := lines[lno];
      lno := lno + 1;
      var o := r.ProcessLineGuarded(line);
      assert o == os[lno - 1];
      PrefixSnoc(os, lno - 1);
      OutcomesSnoc(os[..lno - 1], o);
      match o
      case Emitted(text) =>
        out := out + [text];
      case Rejected(e) =>
        diags := diags + [Diagnostic(lno, e)];
    }
    assert os[..lno] == os;
  }

  /**
   * The loop as written agrees with the cache-free specification on every line but
   * one kind: a line whose target field is empty, before any epoch was read, is
   * written out unchanged where the specification reports it.
   */
  lemma AsWrittenDiffersOnlyOnEarlyEmpty(cfg: Config, lines: seq<string>, i: nat)
    requires ValidConfig(cfg) && i < |lines|
    ensures AsWrittenOutcomes(cfg, lines)[i] != ExpectedOutcomes(cfg, lines)[i] <==>
            !Primed(cfg, lines, i) && Target(cfg, lines[i]) == Some("")
    ensures AsWrittenOutcomes(cfg, lines)[i] != ExpectedOutcomes(cfg, lines)[i] ==>
            AsWrittenOutcomes(cfg, lines)[i] == Emitted(lines[i]) &&
            ExpectedOutcomes(cfg, lines)[i] == Rejected(NotAnEpoch(""))
  {
    if Target(cfg, lines[i]) == Some("") {
      assert ParseInt64("") == None;
    }
  }

  /** With no empty target field among the lines, the loop as written meets the cache-free specification. */
  lemma AsWrittenMeetsSpecWithoutEmptyTargets(cfg: Config, lines: seq<string>)
    requires ValidConfig(cfg)
    requires forall i :: 0 <= i < |lines| ==> Target(cfg, lines[i]) != Some("")
    ensures AsWrittenOutcomes(cfg, lines) == ExpectedOutcomes(cfg, lines)
  {
  }

  /** A line without the one-character delimiter is a single field. */
  lemma SplitSingle(line: string, d: string)
    requires |d| == 1 && d[0] !in line
    ensures Split(line, d) == [line]
  {
    SplitJoin([line], d);
  }

  /** At field 1 split at commas, the empty line has an empty target, which is not an epoch. */
  lemma SampleEmpty(cfg: Config, line: string)
    requires ValidConfig(cfg) && cfg.delim == "," && cfg.fno == 1 && line == ""
    ensures Target(cfg, line) == Some("")
    ensures Expected(cfg, line) == Rejected(NotAnEpoch(""))
  {
    SplitSingle(line, ",");
  }

  /** At field 1 split at commas, the line `0` is the epoch itself. */
  lemma SampleZero(cfg: Config, line: string, zero: int)
    requires ValidConfig(cfg) && cfg.delim == "," && cfg.fno == 1 && line == "0" && zero == 0
    ensures Target(cfg, line) == Some("0")
    ensures Expected(cfg, line) == Emitted(cfg.format(zero))
  {
    assert Split(line, ",") == [line] by {
      SplitSingle(line, ",");
    }
    assert ParseInt64(line) == Some(zero) by {
      assert NatText(zero) == line;
      ParseNatText(zero);
    }
    ExpectedSingleField(cfg, line, zero);
  }

  /** A line that is one field, and that field an epoch, becomes the timestamp alone. */
  lemma ExpectedSingleField(cfg: Config, line: string, n: int)
    requires ValidConfig(cfg) && cfg.fno == 1
    requires Split(line, cfg.delim) == [line] && ParseInt64(line) == Some(n)
    ensures Expected(cfg, line) == Emitted(cfg.format(n))
  {
    var ts := cfg.format(n);
    assert [line][0 := ts] == [ts];
    assert Join([ts], cfg.delim) == ts;
    ExpectedEmits(cfg, line, [line], n, ts);
  }

  /**
   * The same empty field is treated two ways by the loop as written: written out
   * unchanged on line 1, before any epoch was read, but reported on line 3, after
   * the epoch on line 2 filled the cache. The cache-free specification reports both.
   */
  lemma EmptyFieldDependsOnHistory(cfg: Config, lines: seq<string>)
    requires ValidConfig(cfg) && cfg.delim == "," && cfg.fno == 1
    requires lines == ["", "0", ""]
    ensures AsWrittenOutcomes(cfg, lines) == [Emitted(""), Emitted(cfg.format(0)), Rejected(NotAnEpoch(""))]
    ensures ExpectedOutcomes(cfg, lines) == [Rejected(NotAnEpoch("")), Emitted(cfg.format(0)), Rejected(NotAnEpoch(""))]
  {
    var ok := Emitted(cfg.format(0));
    var bad := Rejected(NotAnEpoch(""));
    assert Expected(cfg, lines[0]) == bad && Target(cfg, lines[0]) == Some("") by {
      SampleEmpty(cfg, lines[0]);
    }
    assert Expected(cfg, lines[1]) == ok && Target(cfg, lines[1]) == Some("0") by {
      SampleZero(cfg, lines[1], 0);
    }
    assert Expected(cfg, lines[2]) == bad && Target(cfg, lines[2]) == Some("") by {
      SampleEmpty(cfg, lines[2]);
    }
    assert Primed(cfg, lines, 2) by {
      assert Expected(cfg, lines[1]).Emitted?;
    }
    var aw := AsWrittenOutcomes(cfg, lines);
    assert aw[0] == Emitted("") by {
      assert aw[0] == AsWrittenAt(cfg, lines, 0);
    }
    assert aw[1] == ok by {
      assert aw[1] == AsWrittenAt(cfg, lines, 1);
    }
    assert aw[2] == bad by {
      assert aw[2] == AsWrittenAt(cfg, lines, 2);
    }
    SeqOfThree(aw, Emitted(""), ok, bad);
    var ex := ExpectedOutcomes(cfg, lines);
    assert ex[0] == bad && ex[1] == ok && ex[2] == bad;
    SeqOfThree(ex, bad, ok, bad);
  }

  lemma SeqOfThree<T>(s: seq<T>, a: T, b: T, c: T)
    requires |s| == 3 && s[0] == a && s[1] == b && s[2] == c
    ensures s == [a, b, c]
  {
  }
}
