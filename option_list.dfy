/** The option registry of cmdlp: an ordered list of options with unique flags,
    first-match lookup, and the two running maxima used to align the help text. */
module OptionLists {
  import opened OptionTypes

  datatype Maybe<T> = None | Some(value: T)

  /** The four ways the source scans an option list for an entry. */
  datatype Query =
      /** OptionList::findOption(optc, opts): an empty query field never matches. */
    | ByFields(optc: string, opts: string)
      /** OptionParser::findOption(char): the short flag, compared exactly. */
    | ByShort(optc: string)
      /** OptionParser::findOption(string): the long flag, compared exactly (even when empty). */
    | ByLong(opts: string)
      /** The duplicate check of addOption: either flag equal to the new option's. */
    | Clash(optc: string, opts: string)

  predicate Matches(o: Option, q: Query)
  {
    match q
    case ByFields(c, s) => (c != [] && o.optc == c) || (s != [] && o.opts == s)
    case ByShort(c) => o.optc == c
    case ByLong(s) => o.opts == s
    case Clash(c, s) => o.optc == c || o.opts == s
  }

  predicate NoMatch(entries: seq<Option>, q: Query)
  {
    forall j :: 0 <= j < |entries| ==> !Matches(entries[j], q)
  }

  /** Position i holds the first entry, in list order, that the query matches. */
  predicate FirstMatchAt(entries: seq<Option>, q: Query, i: int)
  {
    0 <= i < |entries| && Matches(entries[i], q) &&
    forall j :: 0 <= j < i ==> !Matches(entries[j], q)
  }

  /** Reference definition of a first-match scan. */
  function First(entries: seq<Option>, q: Query): (r: Maybe<nat>)
    ensures r.Some? ==> FirstMatchAt(entries, q, r.value)
    ensures r.None? ==> NoMatch(entries, q)
  {
    if entries == [] then None
    else if Matches(entries[0], q) then Some(0)
    else match First(entries[1..], q)
      case None => None
      case Some(k) => Some(k + 1)
  }

  /** The early-return iterator loop shared by findOption, optionExhists and the
      duplicate check of addOption. */
  method Find(entries: seq<Option>, q: Query) returns (r: Maybe<nat>)
    ensures r == First(entries, q)
  {
    var i := 0;
    while i < |entries|
      invariant 0 <= i <= |entries|
      invariant forall j :: 0 <= j < i ==> !Matches(entries[j], q)
    {
      if Matches(entries[i], q) {
        return Some(i);
      }
      i := i + 1;
    }
    return None;
  }

  /** No two entries share a short flag, and no two share a long flag. */
  predicate Unique(entries: seq<Option>)
  {
    forall i, j :: 0 <= i < j < |entries| ==> entries[i].optc != entries[j].optc && entries[i].opts != entries[j].opts
  }

  function Max(a: nat, b: nat): nat
  {
    if a < b then b else a
  }

  /** The longest long flag among the entries (0 for none). */
  function MaxOptsLength(entries: seq<Option>): nat
  {
    if entries == [] then 0
    else Max(MaxOptsLength(entries[..|entries| - 1]), |entries[|entries| - 1].opts|)
  }

  /** The widest value any entry reserves (0 for none). */
  function MaxValueLength(entries: seq<Option>): nat
  {
    if entries == [] then 0
    else Max(MaxValueLength(entries[..|entries| - 1]), ValueLength(entries[|entries| - 1]))
  }

  /** MaxOptsLength is the maximum: no long flag is longer, and some entry attains it. */
  lemma {:induction false} MaxOptsLengthIsMax(entries: seq<Option>)
    ensures forall i :: 0 <= i < |entries| ==> |entries[i].opts| <= MaxOptsLength(entries)
    ensures entries != [] ==> exists i :: 0 <= i < |entries| && |entries[i].opts| == MaxOptsLength(entries)
  {
    if entries != [] {
      var init := entries[..|entries| - 1];
      MaxOptsLengthIsMax(init);
      assert forall i :: 0 <= i < |init| ==> init[i] == entries[i];
      var k := |entries| - 1;
      assert MaxOptsLength(entries) == Max(MaxOptsLength(init), |entries[k].opts|);
      if |entries[k].opts| < MaxOptsLength(entries) {
        k :| 0 <= k < |init| && |init[k].opts| == MaxOptsLength(init);
      }
      assert |entries[k].opts| == MaxOptsLength(entries);
    }
  }

  /** MaxValueLength is the maximum: no entry reserves more, and some entry attains it. */
  lemma {:induction false} MaxValueLengthIsMax(entries: seq<Option>)
    ensures forall i :: 0 <= i < |entries| ==> ValueLength(entries[i]) <= MaxValueLength(entries)
    ensures entries != [] ==> exists i :: 0 <= i < |entries| && ValueLength(entries[i]) == MaxValueLength(entries)
  {
    if entries != [] {
      var init := entries[..|entries| - 1];
      MaxValueLengthIsMax(init);
      assert forall i :: 0 <= i < |init| ==> init[i] == entries[i];
      var k := |entries| - 1;
      assert MaxValueLength(entries) == Max(MaxValueLength(init), ValueLength(entries[k]));
      if ValueLength(entries[k]) < MaxValueLength(entries) {
        k :| 0 <= k < |init| && ValueLength(init[k]) == MaxValueLength(init);
      }
      assert ValueLength(entries[k]) == MaxValueLength(entries);
    }
  }

  lemma MaxLengthsAppend(entries: seq<Option>, o: Option)
    ensures MaxOptsLength(entries + [o]) == Max(MaxOptsLength(entries), |o.opts|)
    ensures MaxValueLength(entries + [o]) == Max(MaxValueLength(entries), ValueLength(o))
  {
    assert (entries + [o])[..|entries|] == entries;
  }

  /** Appending an option whose flags clash with no entry keeps the flags unique. */
  lemma AppendKeepsUnique(entries: seq<Option>, o: Option)
    requires Unique(entries)
    requires NoMatch(entries, Clash(o.optc, o.opts))
    ensures Unique(entries + [o])
  {
    forall i, j | 0 <= i < j < |entries + [o]|
      ensures (entries + [o])[i].optc != (entries + [o])[j].optc
      ensures (entries + [o])[i].opts != (entries + [o])[j].opts
    {
      if j == |entries| {
        assert !Matches(entries[i], Clash(o.optc, o.opts));
      }
    }
  }

  /** The registry invariant survives appending an option that clashes with no entry,
      with both widths raised to cover it. */
  lemma AddKeepsInvariant(entries: seq<Option>, lo: nat, lv: nat, o: Option)
    requires Unique(entries) && lo == MaxOptsLength(entries) && MaxValueLength(entries) <= lv
    requires NoMatch(entries, Clash(o.optc, o.opts))
    ensures Unique(entries + [o])
    ensures Max(lo, |o.opts|) == MaxOptsLength(entries + [o])
    ensures MaxValueLength(entries + [o]) <= Max(lv, ValueLength(o))
  {
    MaxLengthsAppend(entries, o);
    AppendKeepsUnique(entries, o);
  }

  /** Appending never changes which entry an earlier lookup finds: first match wins,
      and the new entry is found only when nothing before it matches. */
  lemma {:induction false} FirstAfterAppend(entries: seq<Option>, o: Option, q: Query)
    ensures First(entries + [o], q) ==
      if First(entries, q).Some? then First(entries, q)
      else if Matches(o, q) then Some(|entries|)
      else None
  {
    if entries != [] {
      assert (entries + [o])[1..] == entries[1..] + [o];
      FirstAfterAppend(entries[1..], o, q);
    }
  }

  /** In a list with unique flags, looking up an entry's own short or long flag finds that entry. */
  lemma LookupFindsOwnEntry(entries: seq<Option>, i: nat)
    requires Unique(entries)
    requires i < |entries|
    ensures First(entries, ByShort(entries[i].optc)) == Some(i)
    ensures First(entries, ByLong(entries[i].opts)) == Some(i)
    ensures entries[i].optc != [] ==> First(entries, ByFields(entries[i].optc, [])) == Some(i)
    ensures entries[i].opts != [] ==> First(entries, ByFields([], entries[i].opts)) == Some(i)
  {
  }

  /** The copy loop of OptionList's copy constructor: each entry is re-created as the
      same variant with the same fields, in order. */
  method CopyEntries(entries: seq<Option>) returns (copied: seq<Option>)
    ensures copied == entries
  {
    copied := [];
    var i := 0;
    while i < |entries|
      invariant 0 <= i <= |entries|
      invariant copied == entries[..i]
    {
      var entry := match entries[i]
        case Value(c, s, d, v, req) => Value(c, s, d, v, req)
        case Toggle(c, s, d, t) => Toggle(c, s, d, t);
      copied := copied + [entry];
      i := i + 1;
    }
    assert entries[..i] == entries;
  }

  /** The outcome of OptionList::addOption: added, or OptionExistException naming the
      offered option and the first entry it clashes with. */
  datatype AddOutcome = Added | AlreadyExists(offered: Option, existing: Option)

  class OptionList {
    var options: seq<Option>
    var longestOption: nat
    var longestValue: nat

    /** Flags are unique, the long-flag width is exactly the longest long flag, and the
        value width covers every entry (updateLongestValue may have raised it further). */
    ghost predicate Valid()
      reads this
    {
      Unique(options) &&
      longestOption == MaxOptsLength(options) &&
      MaxValueLength(options) <= longestValue
    }

    constructor ()
      ensures Valid()
      ensures options == [] && longestOption == 0 && longestValue == 0
    {
      options, longestOption, longestValue := [], 0, 0;
    }

    /** The copy constructor: the same entries, variant and fields, in the same order,
        and the same two widths. */
    constructor Copy(other: OptionList)
      requires other.Valid()
      ensures Valid()
      ensures options == other.options
      ensures longestOption == other.longestOption && longestValue == other.longestValue
    {
      var copied := CopyEntries(other.options);
      options := copied;
      longestOption := other.longestOption;
      longestValue := other.longestValue;
    }

    /** addOption: rejects an option whose short or long flag equals an entry's,
        reporting the first such entry and changing nothing; otherwise appends it and
        raises the two widths to cover it. */
    method AddOption(o: Option) returns (r: AddOutcome)
      requires Valid()
      modifies this
      ensures Valid()
      ensures r.AlreadyExists? <==> !NoMatch(old(options), Clash(o.optc, o.opts))
      ensures r.AlreadyExists? ==>
        r.offered == o &&
        (exists k :: FirstMatchAt(old(options), Clash(o.optc, o.opts), k) && r.existing == old(options)[k]) &&
        options == old(options) && longestOption == old(longestOption) && longestValue == old(longestValue)
      ensures r.Added? ==>
        options == old(options) + [o] &&
        longestOption == Max(old(longestOption), |o.opts|) &&
        longestValue == Max(old(longestValue), ValueLength(o))
    {
      var clash := Find(options, Clash(o.optc, o.opts));
      if clash.Some? {
        return AlreadyExists(o, options[clash.value]);
      }
      AddKeepsInvariant(options, longestOption, longestValue, o);
      options := options + [o];
      if |o.opts| > longestOption {
        longestOption := |o.opts|;
      }
      var width := ValueLength(o);
      if width > longestValue {
        longestValue := width;
      }
      return Added;
    }

    /** optionExhists(optc, opts): whether some entry matches a non-empty query field. */
    method OptionExists(optc: string, opts: string) returns (b: bool)
      ensures b <==> exists i :: 0 <= i < |options| && Matches(options[i], ByFields(optc, opts))
      ensures optc == [] && opts == [] ==> !b
    {
      var found := Find(options, ByFields(optc, opts));
      b := found.Some?;
    }

    /** findOption(optc, opts): the position of the first entry whose short flag equals a
        non-empty optc or whose long flag equals a non-empty opts; None for NULL. */
    method FindOption(optc: string, opts: string) returns (r: Maybe<nat>)
      ensures r.Some? ==> FirstMatchAt(options, ByFields(optc, opts), r.value)
      ensures r.None? ==> NoMatch(options, ByFields(optc, opts))
    {
      r := Find(options, ByFields(optc, opts));
    }

    function GetLongestOption(): (r: nat)
      reads this
      requires Valid()
      ensures forall i :: 0 <= i < |options| ==> |options[i].opts| <= r
      ensures options == [] ==> r == 0
      ensures options != [] ==> exists i :: 0 <= i < |options| && |options[i].opts| == r
    {
      MaxOptsLengthIsMax(options);
      longestOption
    }

    function GetLongestValue(): (r: nat)
      reads this
      requires Valid()
      ensures forall i :: 0 <= i < |options| ==> ValueLength(options[i]) <= r
    {
      MaxValueLengthIsMax(options);
      longestValue
    }

    /** updateLongestValue: the value width grows to length and never shrinks. */
    method UpdateLongestValue(length: nat)
      requires Valid()
      modifies this
      ensures Valid()
      ensures longestValue == Max(old(longestValue), length)
      ensures options == old(options) && longestOption == old(longestOption)
    {
      if length > longestValue {
        longestValue := length;
      }
    }

    /** getOption<std::string>(optc, opts): the first matching entry's rendered value,
        or "" when none matches. */
    method GetOptionString(optc: string, opts: string) returns (r: string)
      ensures NoMatch(options, ByFields(optc, opts)) ==> r == []
      ensures forall i | FirstMatchAt(options, ByFields(optc, opts), i) :: r == RenderValue(options[i])
    {
      var found := Find(options, ByFields(optc, opts));
      match found
      case None => r := [];
      case Some(i) => r := RenderValue(options[i]);
    }
  }
}
