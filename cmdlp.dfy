/** The driver of cmdlp: OptionParser registers options (with a built-in -h/--help
    toggle first), fills them in from the command line in one pass, answers lookups
    only after that pass, and renders column-aligned help text. std::exit becomes an
    Exit result carrying the reason. */
module Cmdlp {
  import opened OptionTypes
  import opened LineParsing
  import opened OptionLists

  /** The toggle every OptionParser registers first. */
  const HelpOption: Option := Toggle("-h", "--help", "Shows this help for the program.", false)

  /** Why the source calls std::exit(1). */
  datatype Failure =
      /** addOption met an entry with the same short or long flag. */
    | DuplicateOption(existing: Option)
      /** parseOptions found no value for a required option; the help text goes with it. */
    | MissingRequired(option: Option, help: string)
      /** A lookup ran before parseOptions. */
    | NotParsed

  datatype Result<T> = Ok(value: T) | Exit(failure: Failure)

  // ---------------------------------------------------------------------------
  // One parsing step, as a function of the scanner and the entry
  // ---------------------------------------------------------------------------

  /** A required value option for which neither flag yields a value. */
  predicate Missing(p: LineParser, o: Option)
  {
    o.Value? && o.required && p.GetOption(o.optc) == [] && p.GetOption(o.opts) == []
  }

  /** What parseOptions makes of one entry: a value option takes the value after its
      short flag, else the value after its long flag, else keeps its default; a toggle
      becomes true when either flag is present and is otherwise left alone. */
  function Parsed(p: LineParser, o: Option): (r: Option)
    ensures r.optc == o.optc && r.opts == o.opts && r.description == o.description
    ensures r.Toggle? == o.Toggle?
    ensures r.Value? ==> r.required == o.required
  {
    match o
    case Value(c, s, _, _, _) =>
      if p.GetOption(c) != [] then o.(value := p.GetOption(c))
      else if p.GetOption(s) != [] then o.(value := p.GetOption(s))
      else o
    case Toggle(c, s, _, _) =>
      if p.HasOption(c) || p.HasOption(s) then o.(toggled := true) else o
  }

  /** None of the first k entries is missing. */
  predicate NoneMissing(p: LineParser, entries: seq<Option>, k: int)
  {
    forall j :: 0 <= j < k && j < |entries| ==> !Missing(p, entries[j])
  }

  /** Position k holds the first entry parseOptions stops at. */
  predicate FirstMissingAt(p: LineParser, entries: seq<Option>, k: int)
  {
    0 <= k < |entries| && Missing(p, entries[k]) && NoneMissing(p, entries, k)
  }

  /** The state of the pass after k entries: those are parsed, the rest untouched. */
  predicate ParsedUpTo(p: LineParser, before: seq<Option>, after: seq<Option>, k: int)
  {
    |after| == |before| && 0 <= k <= |before| &&
    (forall i :: 0 <= i < k ==> after[i] == Parsed(p, before[i])) &&
    (forall i :: k <= i < |after| ==> after[i] == before[i])
  }

  /** Two lists carry the same flags at every position. */
  predicate SameFlags(a: seq<Option>, b: seq<Option>)
  {
    |a| == |b| && forall i :: 0 <= i < |a| ==> a[i].optc == b[i].optc && a[i].opts == b[i].opts
  }

  /** Uniqueness and the long-flag width depend on the flags alone, so parsing keeps them. */
  lemma {:induction false} SameFlagsKeepInvariant(a: seq<Option>, b: seq<Option>)
    requires SameFlags(a, b)
    ensures Unique(a) <==> Unique(b)
    ensures MaxOptsLength(a) == MaxOptsLength(b)
  {
    if a != [] {
      SameFlagsKeepInvariant(a[..|a| - 1], b[..|b| - 1]);
    }
  }

  /** Short-flag precedence: a value after the short flag wins whatever follows the long
      flag; the long flag is consulted only when the short one yields nothing; with
      neither, the default stays. */
  lemma ValuePrecedence(p: LineParser, o: Option)
    requires o.Value?
    ensures p.GetOption(o.optc) != [] ==> Parsed(p, o).value == p.GetOption(o.optc)
    ensures p.GetOption(o.optc) == [] && p.GetOption(o.opts) != [] ==> Parsed(p, o).value == p.GetOption(o.opts)
    ensures p.GetOption(o.optc) == [] && p.GetOption(o.opts) == [] ==> Parsed(p, o) == o
  {
  }

  /** Short-flag precedence at the level of tokens: when the first occurrence of the
      short flag is followed by a token that does not start with a dash, that token
      becomes the value, whatever follows the long flag. */
  lemma ShortFlagTokenWins(p: LineParser, o: Option, i: nat)
    requires o.Value?
    requires i + 1 < |p.tokens| && p.tokens[i] == o.optc && o.optc !in p.tokens[..i]
    requires p.tokens[i + 1] != [] && p.tokens[i + 1][0] != '-'
    ensures Parsed(p, o).value == p.tokens[i + 1]
  {
    assert p.GetOption(o.optc) == p.tokens[i + 1];
  }

  /** Long-flag fallback at the level of tokens: when the short flag yields nothing and
      the first occurrence of the long flag is followed by a token that does not start
      with a dash, that token becomes the value. */
  lemma LongFlagTokenFallback(p: LineParser, o: Option, i: nat)
    requires o.Value? && p.GetOption(o.optc) == []
    requires i + 1 < |p.tokens| && p.tokens[i] == o.opts && o.opts !in p.tokens[..i]
    requires p.tokens[i + 1] != [] && p.tokens[i + 1][0] != '-'
    ensures Parsed(p, o).value == p.tokens[i + 1]
  {
    assert p.GetOption(o.opts) == p.tokens[i + 1];
  }

  /** A value that parsing assigns comes from the command line: it is the token right
      after one of the option's flags and does not start with a dash. */
  lemma ParsedValueFromTokens(p: LineParser, o: Option)
    requires o.Value? && Parsed(p, o).value != o.value
    ensures Parsed(p, o).value != [] && Parsed(p, o).value[0] != '-'
    ensures exists i :: (0 <= i < |p.tokens| - 1 && (p.tokens[i] == o.optc || p.tokens[i] == o.opts) &&
      p.tokens[i + 1] == Parsed(p, o).value)
  {
  }

  /** A toggle ends up set exactly when it was set already or either flag is on the
      command line; parsing never clears a toggle. */
  lemma ToggleParsing(p: LineParser, o: Option)
    requires o.Toggle?
    ensures Parsed(p, o).toggled <==> o.toggled || o.optc in p.tokens || o.opts in p.tokens
    ensures o.toggled ==> Parsed(p, o).toggled
  {
  }

  /** Parsing an already parsed entry changes nothing, and does not make it fail. */
  lemma ParseIdempotent(p: LineParser, o: Option)
    ensures Parsed(p, Parsed(p, o)) == Parsed(p, o)
    ensures Missing(p, Parsed(p, o)) == Missing(p, o)
  {
  }

  /** Both flags given: "-d 1.0 --double 2.0" leaves 1.0 in the option. */
  lemma ShortFlagWinsExample(p: LineParser)
    requires p.tokens == ["-d", "1.0", "--double", "2.0"]
    ensures Parsed(p, Value("-d", "--double", "Delta", "0.2", false)).value == "1.0"
  {
    assert p.tokens[0] == "-d";
    assert "1.0"[0] != '-';
  }

  /** A flag followed by another flag, or by nothing, has no value: with
      "--verbose --double" a required -d/--double is missing. */
  lemma FlagAfterFlagIsMissing(p: LineParser)
    requires p.tokens == ["--verbose", "--double"]
    ensures Missing(p, Value("-d", "--double", "Delta", "", true))
  {
    assert p.tokens[1] == "--double";
    assert p.tokens[0] != "--double";
    assert "-d" !in p.tokens;
  }

  // ---------------------------------------------------------------------------
  // Help layout
  // ---------------------------------------------------------------------------

  function Spaces(n: nat): (r: string)
    ensures |r| == n
    ensures forall i :: 0 <= i < n ==> r[i] == ' '
  {
    if n == 0 then [] else [' '] + Spaces(n - 1)
  }

  /** std::setw(width) << std::left: pads on the right with spaces, never truncates. */
  function PadRight(s: string, width: nat): (r: string)
    ensures |r| == Max(|s|, width)
    ensures r[..|s|] == s
    ensures forall i :: |s| <= i < |r| ==> r[i] == ' '
  {
    if |s| < width then s + Spaces(width - |s|) else s
  }

  /** std::setw(width) << std::right: pads on the left with spaces, never truncates. */
  function PadLeft(s: string, width: nat): (r: string)
    ensures |r| == Max(|s|, width)
    ensures r[|r| - |s|..] == s
    ensures forall i :: 0 <= i < |r| - |s| ==> r[i] == ' '
  {
    if |s| < width then Spaces(width - |s|) + s else s
  }

  /** One row of getHelp. */
  function HelpLine(o: Option, lo: nat, lv: nat): string
  {
    ("    [" + o.optc + "] ") +
      (PadRight(o.opts, lo) + (" (" + (PadLeft(RenderValue(o), lv) + (") : " + o.description + "\n"))))
  }

  /** The text of a list of entries rendered one row each, in order. */
  function Lines(entries: seq<Option>, row: Option -> string): string
  {
    if entries == [] then [] else Lines(entries[..|entries| - 1], row) + row(entries[|entries| - 1])
  }

  /** Rendering distributes over concatenation of the entries, whatever the row layout. */
  lemma {:induction false} LinesAppend(a: seq<Option>, b: seq<Option>, row: Option -> string)
    ensures Lines(a + b, row) == Lines(a, row) + Lines(b, row)
  {
    if b == [] {
      assert a + b == a;
    } else {
      var init := b[..|b| - 1];
      assert (a + b)[..|a + b| - 1] == a + init;
      LinesAppend(a, init, row);
    }
  }

  /** The row layout of getHelp for the given widths. */
  function HelpRow(lo: nat, lv: nat): (row: Option -> string)
    ensures forall o :: row(o) == HelpLine(o, lo, lv)
  {
    o => HelpLine(o, lo, lv)
  }

  /** The whole help text. */
  function Help(entries: seq<Option>, lo: nat, lv: nat): string
  {
    Lines(entries, HelpRow(lo, lv))
  }

  /** Cutting a right-nested concatenation of five strings at the joins gives back the parts. */
  lemma FiveParts(a: string, b: string, c: string, d: string, e: string)
    ensures var line := a + (b + (c + (d + e)));
      var i1, i2, i3, i4 := |a|, |a| + |b|, |a| + |b| + |c|, |a| + |b| + |c| + |d|;
      |line| == i4 + |e| &&
      line[..i1] == a && line[i1..i2] == b && line[i2..i3] == c && line[i3..i4] == d && line[i4..] == e
  {
    var line := a + (b + (c + (d + e)));
    assert line[..|a|] == a;
    assert line[|a|..] == b + (c + (d + e));
  }

  /** A run of spaces at the end of the second of five concatenated strings. */
  lemma GapInSecond(a: string, b: string, c: string, d: string, e: string, from: nat)
    requires from <= |b| && forall j :: from <= j < |b| ==> b[j] == ' '
    ensures forall i :: |a| + from <= i < |a| + |b| ==> (a + (b + (c + (d + e))))[i] == ' '
  {
    forall i | |a| + from <= i < |a| + |b|
      ensures (a + (b + (c + (d + e))))[i] == ' '
    {
      assert (a + (b + (c + (d + e))))[i] == (b + (c + (d + e)))[i - |a|] == b[i - |a|];
    }
  }

  /** A run of spaces at the start of the fourth of five concatenated strings. */
  lemma GapInFourth(a: string, b: string, c: string, d: string, e: string, to: nat)
    requires to <= |d| && forall j :: 0 <= j < to ==> d[j] == ' '
    ensures forall i :: |a| + |b| + |c| <= i < |a| + |b| + |c| + to ==> (a + (b + (c + (d + e))))[i] == ' '
  {
    forall i | |a| + |b| + |c| <= i < |a| + |b| + |c| + to
      ensures (a + (b + (c + (d + e))))[i] == ' '
    {
      var j := i - |a| - |b| - |c|;
      assert (a + (b + (c + (d + e))))[i] == (b + (c + (d + e)))[i - |a|];
      assert (b + (c + (d + e)))[i - |a|] == (c + (d + e))[i - |a| - |b|];
      assert (c + (d + e))[i - |a| - |b|] == (d + e)[j] == d[j];
    }
  }

  /** The left half of a row: "[optc] ", then the long flag padded to lo, then " (". */
  lemma HelpLineFlagColumn(o: Option, lo: nat, lv: nat)
    requires |o.opts| <= lo
    ensures var line, k := HelpLine(o, lo, lv), 7 + |o.optc|;
      |line| == k + lo + 2 + Max(|RenderValue(o)|, lv) + 5 + |o.description| &&
      line[..k] == "    [" + o.optc + "] " &&
      line[k..k + |o.opts|] == o.opts &&
      line[k + lo..k + lo + 2] == " ("
  {
    var k := 7 + |o.optc|;
    var line := HelpLine(o, lo, lv);
    FiveParts("    [" + o.optc + "] ", PadRight(o.opts, lo), " (", PadLeft(RenderValue(o), lv), ") : " + o.description + "\n");
    assert line[k..k + |o.opts|] == line[k..k + lo][..|o.opts|];
  }

  /** The gap between the long flag and " (" is all spaces. */
  lemma HelpLineFlagPadding(o: Option, lo: nat, lv: nat)
    requires |o.opts| <= lo
    ensures var line, k := HelpLine(o, lo, lv), 7 + |o.optc|;
      k + lo <= |line| && forall i :: k + |o.opts| <= i < k + lo ==> line[i] == ' '
  {
    var prefix, pad := "    [" + o.optc + "] ", PadRight(o.opts, lo);
    assert |prefix| == 7 + |o.optc| && |pad| == lo;
    FiveParts(prefix, pad, " (", PadLeft(RenderValue(o), lv), ") : " + o.description + "\n");
    GapInSecond(prefix, pad, " (", PadLeft(RenderValue(o), lv), ") : " + o.description + "\n", |o.opts|);
  }

  /** The right half of a row: the value right-aligned to end lv columns after " (",
      then ") : " and the description. */
  lemma HelpLineValueColumn(o: Option, lo: nat, lv: nat)
    requires |o.opts| <= lo && |RenderValue(o)| <= lv
    ensures var line, k, v := HelpLine(o, lo, lv), 7 + |o.optc|, RenderValue(o);
      |line| == k + lo + lv + 7 + |o.description| &&
      line[k + lo + 2 + lv - |v|..k + lo + 2 + lv] == v &&
      line[k + lo + 2 + lv..] == ") : " + o.description + "\n"
  {
    var v := RenderValue(o);
    var k := 7 + |o.optc|;
    var line := HelpLine(o, lo, lv);
    FiveParts("    [" + o.optc + "] ", PadRight(o.opts, lo), " (", PadLeft(v, lv), ") : " + o.description + "\n");
    assert line[k + lo + 2 + lv - |v|..k + lo + 2 + lv] == line[k + lo + 2..k + lo + 2 + lv][lv - |v|..];
  }

  /** The gap between " (" and the right-aligned value is all spaces. */
  lemma HelpLineValuePadding(o: Option, lo: nat, lv: nat)
    requires |o.opts| <= lo && |RenderValue(o)| <= lv
    ensures var line, k, v := HelpLine(o, lo, lv), 7 + |o.optc|, RenderValue(o);
      k + lo + 2 + lv <= |line| && forall i :: k + lo + 2 <= i < k + lo + 2 + lv - |v| ==> line[i] == ' '
  {
    var prefix, pad, padl := "    [" + o.optc + "] ", PadRight(o.opts, lo), PadLeft(RenderValue(o), lv);
    assert |prefix| == 7 + |o.optc| && |pad| == lo && |padl| == lv;
    FiveParts(prefix, pad, " (", padl, ") : " + o.description + "\n");
    GapInFourth(prefix, pad, " (", padl, ") : " + o.description + "\n", lv - |RenderValue(o)|);
  }

  /** When the widths cover an entry, its row has a fixed layout: the long flag starts
      right after "[optc] " and is padded with spaces, " (" sits at a column fixed by the long-flag width, the
      value is right-aligned behind spaces to end at a column fixed by both widths, and ") : " with
      the description follows it. */
  lemma HelpLineLayout(o: Option, lo: nat, lv: nat)
    requires |o.opts| <= lo && |RenderValue(o)| <= lv
    ensures var line, k, v := HelpLine(o, lo, lv), 7 + |o.optc|, RenderValue(o);
      |line| == k + lo + lv + 7 + |o.description| &&
      line[..k] == "    [" + o.optc + "] " &&
      line[k..k + |o.opts|] == o.opts &&
      (forall i :: k + |o.opts| <= i < k + lo ==> line[i] == ' ') &&
      line[k + lo..k + lo + 2] == " (" &&
      (forall i :: k + lo + 2 <= i < k + lo + 2 + lv - |v| ==> line[i] == ' ') &&
      line[k + lo + 2 + lv - |v|..k + lo + 2 + lv] == v &&
      line[k + lo + 2 + lv..] == ") : " + o.description + "\n"
  {
    HelpLineFlagColumn(o, lo, lv);
    HelpLineFlagPadding(o, lo, lv);
    HelpLineValueColumn(o, lo, lv);
    HelpLineValuePadding(o, lo, lv);
  }

  /** Help is built line by line: the help of a concatenation is the concatenation of
      the helps, so rows appear in registration order. */
  lemma HelpConcat(a: seq<Option>, b: seq<Option>, lo: nat, lv: nat)
    ensures Help(a + b, lo, lv) == Help(a, lo, lv) + Help(b, lo, lv)
  {
    LinesAppend(a, b, HelpRow(lo, lv));
  }

  /** The help text of a fresh parser: its single row is not padded, because the
      built-in entry is registered without updating the widths. */
  lemma FreshHelpText()
    ensures Help([HelpOption], 0, 0) ==
      "    [" + "-h" + "] " + "--help" + " (" + "false" + ") : " + "Shows this help for the program." + "\n"
  {
    var row, o := HelpRow(0, 0), HelpOption;
    assert [o][..0] == [];
    assert Lines([o], row) == HelpLine(o, 0, 0);
    assert RenderValue(o) == "false";
    assert PadRight(o.opts, 0) == o.opts;
    assert PadLeft("false", 0) == "false";
  }

  /** hasOption's answer for an entry: a value option with a non-empty value, or a set toggle. */
  predicate IsSet(o: Option)
  {
    match o
    case Value(_, _, _, v, _) => v != []
    case Toggle(_, _, _, t) => t
  }

  // ---------------------------------------------------------------------------
  // The parser object
  // ---------------------------------------------------------------------------

  class OptionParser {
    const parser: LineParser
    var options: seq<Option>
    var parsed: bool
    var longestOption: nat
    var longestValue: nat

    /** The built-in help toggle stays first, flags are unique, and the widths are the
        maxima over the entries registered through addOption (the help entry is not
        counted). The value width tracks registered values only until parsing, which
        does not refresh it. */
    ghost predicate Valid()
      reads this
    {
      |options| > 0 && options[0].Toggle? && options[0].optc == HelpOption.optc &&
      options[0].opts == HelpOption.opts && options[0].description == HelpOption.description &&
      Unique(options) &&
      longestOption == MaxOptsLength(options[1..]) &&
      (!parsed ==> longestValue == MaxValueLength(options[1..]))
    }

    /** Captures the command line and registers -h/--help, without updating the widths. */
    constructor (argv: seq<string>)
      ensures Valid()
      ensures options == [HelpOption] && !parsed && longestOption == 0 && longestValue == 0
      ensures |parser.tokens| == if |argv| == 0 then 0 else |argv| - 1
      ensures forall i :: 0 <= i < |parser.tokens| ==> parser.tokens[i] == argv[i + 1]
    {
      parser := new LineParser(argv);
      options := [HelpOption];
      parsed := false;
      longestOption, longestValue := 0, 0;
      new;
      assert options[1..] == [];
    }

    /** addOption: exits on an entry with the same short or long flag, changing nothing;
        otherwise appends the option and raises both widths to cover it. */
    method AddOption(o: Option) returns (r: Result<()>)
      requires Valid()
      modifies this
      ensures Valid()
      ensures parsed == old(parsed)
      ensures r.Exit? <==> !NoMatch(old(options), Clash(o.optc, o.opts))
      ensures r.Exit? ==>
        (exists k :: FirstMatchAt(old(options), Clash(o.optc, o.opts), k) && r.failure == DuplicateOption(old(options)[k])) &&
        options == old(options) && longestOption == old(longestOption) && longestValue == old(longestValue)
      ensures r.Ok? ==>
        options == old(options) + [o] &&
        longestOption == Max(old(longestOption), |o.opts|) &&
        longestValue == Max(old(longestValue), ValueLength(o))
    {
      var clash := Find(options, Clash(o.optc, o.opts));
      if clash.Some? {
        return Exit(DuplicateOption(options[clash.value]));
      }
      AppendKeepsUnique(options, o);
      MaxLengthsAppend(options[1..], o);
      assert (options + [o])[1..] == options[1..] + [o];
      options := options + [o];
      if |o.opts| > longestOption {
        longestOption := |o.opts|;
      }
      var width := ValueLength(o);
      if width > longestValue {
        longestValue := width;
      }
      return Ok(());
    }

    /** addTOption: registers a toggle whose short flag is "-" followed by optc; it fails,
        changes and keeps exactly what addOption does. */
    method AddToggle(optc: char, opts: string, description: string, toggled: bool) returns (r: Result<()>)
      requires Valid()
      modifies this
      ensures Valid()
      ensures parsed == old(parsed)
      ensures var o := Toggle(OptcToString(optc), opts, description, toggled);
        r.Exit? <==> !NoMatch(old(options), Clash(o.optc, o.opts))
      ensures var o := Toggle(OptcToString(optc), opts, description, toggled);
        r.Exit? ==>
          (exists k :: FirstMatchAt(old(options), Clash(o.optc, o.opts), k) && r.failure == DuplicateOption(old(options)[k])) &&
          options == old(options) && longestOption == old(longestOption) && longestValue == old(longestValue)
      ensures var o := Toggle(OptcToString(optc), opts, description, toggled);
        r.Ok? ==>
          options == old(options) + [o] &&
          longestOption == Max(old(longestOption), |o.opts|) &&
          longestValue == Max(old(longestValue), ValueLength(o))
    {
      r := AddOption(Toggle(OptcToString(optc), opts, description, toggled));
    }

    /** addVOption, with the default already turned into its text; it fails, changes and
        keeps exactly what addOption does. */
    method AddValue(optc: char, opts: string, description: string, value: string, required: bool) returns (r: Result<()>)
      requires Valid()
      modifies this
      ensures Valid()
      ensures parsed == old(parsed)
      ensures var o := Value(OptcToString(optc), opts, description, value, required);
        r.Exit? <==> !NoMatch(old(options), Clash(o.optc, o.opts))
      ensures var o := Value(OptcToString(optc), opts, description, value, required);
        r.Exit? ==>
          (exists k :: FirstMatchAt(old(options), Clash(o.optc, o.opts), k) && r.failure == DuplicateOption(old(options)[k])) &&
          options == old(options) && longestOption == old(longestOption) && longestValue == old(longestValue)
      ensures var o := Value(OptcToString(optc), opts, description, value, required);
        r.Ok? ==>
          options == old(options) + [o] &&
          longestOption == Max(old(longestOption), |o.opts|) &&
          longestValue == Max(old(longestValue), ValueLength(o))
    {
      r := AddOption(Value(OptcToString(optc), opts, description, value, required));
    }

    /** parseOptions: one pass in registration order. It stops with the help text at the
        first required value option that finds no value; otherwise every entry becomes
        Parsed of itself and the parser is marked parsed. The widths are not refreshed. */
    method ParseOptions() returns (r: Result<()>)
      requires Valid()
      modifies this
      ensures longestOption == old(longestOption) && longestValue == old(longestValue)
      ensures r.Ok? <==> NoneMissing(parser, old(options), |old(options)|)
      ensures r.Ok? ==> Valid() && parsed && ParsedUpTo(parser, old(options), options, |options|)
      ensures r.Exit? ==> parsed == old(parsed)
      ensures r.Exit? ==> exists k :: (FirstMissingAt(parser, old(options), k) &&
        ParsedUpTo(parser, old(options), options, k) &&
        r.failure == MissingRequired(old(options)[k], Help(options, longestOption, longestValue)))
    {
      var before := options;
      var after, stop := ParseEntries(options);
      options := after;
      if stop.Some? {
        var help := GetHelp();
        return Exit(MissingRequired(before[stop.value], help));
      }
      parsed := true;
      assert SameFlags(options, before);
      SameFlagsKeepInvariant(options, before);
      SameFlagsKeepInvariant(options[1..], before[1..]);
      return Ok(());
    }

    /** The loop of parseOptions over a list of entries: each entry in turn becomes Parsed
        of itself, until the first missing required option, where the pass stops and
        reports its position; the entries from there on are left as they were. */
    method ParseEntries(entries: seq<Option>) returns (after: seq<Option>, stop: Maybe<nat>)
      ensures stop.None? <==> NoneMissing(parser, entries, |entries|)
      ensures stop.None? ==> ParsedUpTo(parser, entries, after, |entries|)
      ensures stop.Some? ==> FirstMissingAt(parser, entries, stop.value) && ParsedUpTo(parser, entries, after, stop.value)
    {
      after := entries;
      var i := 0;
      while i < |after|
        invariant i <= |entries|
        invariant ParsedUpTo(parser, entries, after, i) && NoneMissing(parser, entries, i)
      {
        var entry, missing := ParseEntry(after[i]);
        if missing {
          return after, Some(i);
        }
        after := after[i := entry];
        i := i + 1;
      }
      return after, None;
    }

    /** The body of parseOptions' loop for one entry: a value option tries its short
        flag, then its long flag, and is missing when both yield nothing and it is
        required; a toggle is set by the presence of either flag. */
    method ParseEntry(o: Option) returns (entry: Option, missing: bool)
      ensures missing == Missing(parser, o)
      ensures !missing ==> entry == Parsed(parser, o)
    {
      entry, missing := o, false;
      if o.Value? {
        var value := parser.GetOption(o.optc);
        if value != [] {
          entry := o.(value := value);
        } else {
          value := parser.GetOption(o.opts);
          if value != [] {
            entry := o.(value := value);
          } else if o.required {
            missing := true;
          }
        }
      } else {
        if parser.HasOption(o.optc) {
          entry := o.(toggled := true);
        } else if parser.HasOption(o.opts) {
          entry := o.(toggled := true);
        }
      }
    }

    /** findOption(char): before parsing, exits; afterwards, the first entry whose short
        flag is "-" followed by optc. */
    method FindOptionChar(optc: char) returns (r: Result<Maybe<nat>>)
      ensures !parsed ==> r == Exit(NotParsed)
      ensures parsed ==> r.Ok?
      ensures parsed && r.value.Some? ==> FirstMatchAt(options, ByShort(OptcToString(optc)), r.value.value)
      ensures parsed && r.value.None? ==> NoMatch(options, ByShort(OptcToString(optc)))
    {
      if !parsed {
        return Exit(NotParsed);
      }
      var found := Find(options, ByShort(OptcToString(optc)));
      return Ok(found);
    }

    /** findOption(string): before parsing, exits; afterwards, the first entry whose long
        flag equals opts. */
    method FindOptionLong(opts: string) returns (r: Result<Maybe<nat>>)
      ensures !parsed ==> r == Exit(NotParsed)
      ensures parsed ==> r.Ok?
      ensures parsed && r.value.Some? ==> FirstMatchAt(options, ByLong(opts), r.value.value)
      ensures parsed && r.value.None? ==> NoMatch(options, ByLong(opts))
    {
      if !parsed {
        return Exit(NotParsed);
      }
      var found := Find(options, ByLong(opts));
      return Ok(found);
    }

    /** hasOption(char): whether the entry with short flag "-optc" holds a non-empty value
        or is a set toggle; false when there is no such entry. */
    method HasOptionChar(optc: char) returns (r: Result<bool>)
      ensures !parsed ==> r == Exit(NotParsed)
      ensures parsed ==> r.Ok?
      ensures parsed ==>
        (r.value <==> exists i :: FirstMatchAt(options, ByShort(OptcToString(optc)), i) && IsSet(options[i]))
    {
      var found := FindOptionChar(optc);
      if found.Exit? {
        return Exit(found.failure);
      }
      match found.value
      case None => r := Ok(false);
      case Some(i) => r := Ok(IsSet(options[i]));
    }

    /** hasOption(string): the same, by long flag. */
    method HasOptionLong(opts: string) returns (r: Result<bool>)
      ensures !parsed ==> r == Exit(NotParsed)
      ensures parsed ==> r.Ok?
      ensures parsed ==> (r.value <==> exists i :: FirstMatchAt(options, ByLong(opts), i) && IsSet(options[i]))
    {
      var found := FindOptionLong(opts);
      if found.Exit? {
        return Exit(found.failure);
      }
      match found.value
      case None => r := Ok(false);
      case Some(i) => r := Ok(IsSet(options[i]));
    }

    /** getOption<std::string>(char): the value of the entry with short flag "-optc",
        "true"/"false" for a toggle, "" when there is none. */
    method GetOptionChar(optc: char) returns (r: Result<string>)
      ensures !parsed ==> r == Exit(NotParsed)
      ensures parsed ==> r.Ok?
      ensures parsed && NoMatch(options, ByShort(OptcToString(optc))) ==> r.value == []
      ensures parsed ==> forall i | FirstMatchAt(options, ByShort(OptcToString(optc)), i) :: r.value == RenderValue(options[i])
    {
      var found := FindOptionChar(optc);
      if found.Exit? {
        return Exit(found.failure);
      }
      match found.value
      case None => r := Ok([]);
      case Some(i) => r := Ok(RenderValue(options[i]));
    }

    /** getOption<std::string>(string): the same, by long flag. */
    method GetOptionLong(opts: string) returns (r: Result<string>)
      ensures !parsed ==> r == Exit(NotParsed)
      ensures parsed ==> r.Ok?
      ensures parsed && NoMatch(options, ByLong(opts)) ==> r.value == []
      ensures parsed ==> forall i | FirstMatchAt(options, ByLong(opts), i) :: r.value == RenderValue(options[i])
    {
      var found := FindOptionLong(opts);
      if found.Exit? {
        return Exit(found.failure);
      }
      match found.value
      case None => r := Ok([]);
      case Some(i) => r := Ok(RenderValue(options[i]));
    }

    /** getHelp: one row per entry, in registration order, padded to the stored widths. */
    method GetHelp() returns (text: string)
      ensures text == Help(options, longestOption, longestValue)
    {
      text := [];
      var i := 0;
      while i < |options|
        invariant 0 <= i <= |options|
        invariant text == Help(options[..i], longestOption, longestValue)
      {
        var o := options[i];
        var line := HelpLine(o, longestOption, longestValue);
        text := text + line;
        assert options[..i + 1][..i] == options[..i];
        i := i + 1;
      }
      assert options[..i] == options;
    }
  }

  /** Before parsing, every registered row is covered by the stored widths, so
      HelpLineLayout applies to it and all those rows line up. */
  lemma RegisteredRowsAligned(p: OptionParser)
    requires p.Valid() && !p.parsed
    ensures forall i :: 1 <= i < |p.options| ==>
      |p.options[i].opts| <= p.longestOption && |RenderValue(p.options[i])| <= p.longestValue
  {
    var rest := p.options[1..];
    MaxOptsLengthIsMax(rest);
    MaxValueLengthIsMax(rest);
    forall i | 1 <= i < |p.options|
      ensures |p.options[i].opts| <= p.longestOption && |RenderValue(p.options[i])| <= p.longestValue
    {
      assert rest[i - 1] == p.options[i];
      ValueLengthCoversRendered(p.options[i]);
    }
  }
}
