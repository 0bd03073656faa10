/**
 * The timestamp mode of the command: the reference instant taken from the
 * positional argument, and the one line `showOneline` prints for the selector flags.
 */
module Oneline {
  import opened Wrappers
  import opened Text
  import opened Decimal
  import opened UtcTime

  /** The selector flags `-u`, `-l`, `-s` and `-w`. */
  datatype Selectors = Selectors(utc: bool, loc: bool, epoch: bool, week: bool)

  /**
   * The reference instant: its epoch second, with the texts the host's time zone
   * database gives for it (local timestamp, zone abbreviation) and its ISO week number.
   */
  datatype Instant = Instant(epoch: int, localText: string, zoneText: string, isoWeek: nat)

  /**
   * The reference epoch second: the first positional argument read as a signed
   * 64-bit decimal, or the current time when there is none. `None` is the fatal
   * error that ends the process with status 1. `args` are the arguments left after
   * flag parsing: a negative epoch such as `-5` is taken for an unknown flag, which
   * ends the process before this point, unless it follows `--`.
   */
  function ReferenceEpoch(args: seq<string>, now: int): (r: Option<int>)
    ensures |args| == 0 ==> r == Some(now)
    ensures |args| > 0 ==> r == ParseInt64(args[0])
    ensures |args| > 0 ==> (r.Some? <==> ParseInt64(args[0]).Some?)
    ensures |args| > 0 && r.Some? ==> IsInt64(r.value)
  {
    if |args| > 0 then ParseInt64(args[0]) else Some(now)
  }

  /** Any 64-bit epoch written in decimal as the first argument becomes the reference instant. */
  lemma ReferenceEpochOfText(n: int, rest: seq<string>, now: int)
    requires IsInt64(n)
    ensures ReferenceEpoch([IntText(n)] + rest, now) == Some(n)
  {
    ParseIntText(n);
  }

  /** `W%02d`: the ISO week number in at least two digits. */
  function WeekLabel(w: nat): (s: string)
    ensures |s| >= 3 && s[0] == 'W' && AllDigits(s[1..]) && ValueOf(s[1..]) == w
    ensures w < 100 ==> |s| == 3
  {
    var p := Padded(w, 2);
    PaddedValue(w, 2);
    PaddedWidth(w, 2);
    assert Pow10(2) == 100;
    assert ("W" + p)[1..] == p;
    "W" + p
  }

  /** The fields `showOneline` prints: the first selected one, or all five when none is. */
  function SelectedFields(sel: Selectors, t: Instant): seq<string>
  {
    if sel.utc then [FormatUTC(t.epoch)]
    else if sel.loc then [t.localText]
    else if sel.epoch then [IntText(t.epoch)]
    else if sel.week then [WeekLabel(t.isoWeek)]
    else [FormatUTC(t.epoch), t.localText, IntText(t.epoch), t.zoneText, WeekLabel(t.isoWeek)]
  }

  /** The text `showOneline` writes: the selected fields separated by single spaces, and a newline. */
  function Oneline(sel: Selectors, t: Instant): (line: string)
    ensures |line| >= 1 && line[|line| - 1] == '\n'
  {
    Join(SelectedFields(sel, t), " ") + "\n"
  }

  /** The text of a line without its final newline. */
  function Body(line: string): string
    requires |line| >= 1
  {
    line[..|line| - 1]
  }

  /**
   * When the local timestamp and the zone abbreviation hold no space, the printed
   * line, split at spaces, is exactly the selected field, or the five fields in
   * the order UTC, local, epoch, zone, week when no selector is set.
   */
  lemma OnelineSplits(sel: Selectors, t: Instant)
    requires ' ' !in t.localText && ' ' !in t.zoneText
    ensures Split(Body(Oneline(sel, t)), " ") == SelectedFields(sel, t)
  {
    var fields := SelectedFields(sel, t);
    FieldsHoldNoSpace(sel, t);
    BodyOfLine(Join(fields, " "));
    SplitJoin(fields, " ");
  }

  lemma BodyOfLine(text: string)
    ensures Body(text + "\n") == text
  {
  }

  lemma FieldsHoldNoSpace(sel: Selectors, t: Instant)
    requires ' ' !in t.localText && ' ' !in t.zoneText
    ensures forall k :: 0 <= k < |SelectedFields(sel, t)| ==> ' ' !in SelectedFields(sel, t)[k]
  {
    var u, e, w := FormatUTC(t.epoch), IntText(t.epoch), WeekLabel(t.isoWeek);
    IntTextNoSpace(t.epoch);
    WeekLabelNoSpace(t.isoWeek);
    if sel.utc || sel.loc || sel.epoch || sel.week {
      var f := SelectedFields(sel, t)[0];
      assert SelectedFields(sel, t) == [f];
      assert ' ' !in f;
    } else {
      assert SelectedFields(sel, t) == [u, t.localText, e, t.zoneText, w];
      FiveHoldNoSpace(u, t.localText, e, t.zoneText, w);
    }
  }

  lemma FiveHoldNoSpace(a: string, b: string, c: string, d: string, e: string)
    requires ' ' !in a && ' ' !in b && ' ' !in c && ' ' !in d && ' ' !in e
    ensures forall k :: 0 <= k < 5 ==> ' ' !in [a, b, c, d, e][k]
  {
  }

  lemma IntTextNoSpace(n: int)
    ensures ' ' !in IntText(n)
  {
    DigitsNoSpace(if n < 0 then IntText(n)[1..] else IntText(n));
  }

  lemma WeekLabelNoSpace(w: nat)
    ensures ' ' !in WeekLabel(w)
  {
    DigitsNoSpace(WeekLabel(w)[1..]);
  }

  /**
   * With both `-u` and `-l` (or any other flag besides `-u`), only the UTC field is
   * printed; `-l` beats `-s` and `-w`, and `-s` beats `-w`.
   */
  lemma SelectorPriority(sel: Selectors, t: Instant)
    ensures sel.utc ==> Oneline(sel, t) == FormatUTC(t.epoch) + "\n"
    ensures !sel.utc && sel.loc ==> Oneline(sel, t) == t.localText + "\n"
    ensures !sel.utc && !sel.loc && sel.epoch ==> Oneline(sel, t) == IntText(t.epoch) + "\n"
    ensures !sel.utc && !sel.loc && !sel.epoch && sel.week ==> Oneline(sel, t) == WeekLabel(t.isoWeek) + "\n"
  {
  }

  /**
   * The printed epoch and the printed UTC timestamp (for years 0000 to 9999) read
   * back as the reference instant's epoch second.
   */
  lemma OnelineReadsBack(sel: Selectors, t: Instant)
    requires IsInt64(t.epoch)
    ensures !sel.utc && !sel.loc && sel.epoch ==> ParseInt64(Body(Oneline(sel, t))) == Some(t.epoch)
    ensures sel.utc && 0 <= DateTimeOf(t.epoch).year <= 9999 ==> ParseUTC(Body(Oneline(sel, t))) == Some(t.epoch)
  {
    var line := Oneline(sel, t);
    if sel.utc {
      assert Body(line) == FormatUTC(t.epoch);
      if 0 <= DateTimeOf(t.epoch).year <= 9999 {
        ParseFormatUTC(t.epoch);
      }
    } else if sel.loc {
    } else if sel.epoch {
      assert Body(line) == IntText(t.epoch);
      ParseIntText(t.epoch);
    }
  }
}
