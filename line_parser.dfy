/** The token scanner of cmdlp: the command line after the program name,
    with presence and "value after this flag" queries. */
module LineParsing {

  /** tolower over ASCII: upper-case letters map to lower case, everything else to itself. */
  function ToLower(c: char): (r: char)
    ensures 'A' <= c <= 'Z' ==> 'a' <= r <= 'z' && r as int == c as int + 32
    ensures !('A' <= c <= 'Z') ==> r == c
  {
    if 'A' <= c <= 'Z' then (c as int + 32) as char else c
  }

  /** The character test _starts_with applies, case-sensitive or under ToLower. */
  predicate SameChar(a: char, b: char, sensitive: bool)
  {
    if sensitive then a == b else ToLower(a) == ToLower(b)
  }

  /** Reference meaning of _starts_with(source, prefix, sensitive, n): both strings are
      non-empty, the prefix fits in the source, and its first m characters agree with
      the source's, where m is n when 0 < n < |prefix| and the whole prefix otherwise. */
  predicate StartsWith(source: string, prefix: string, sensitive: bool, n: int)
  {
    0 < |prefix| <= |source| &&
    var m := if 0 < n < |prefix| then n else |prefix|;
    forall i :: 0 <= i < m ==> SameChar(prefix[i], source[i], sensitive)
  }

  /** _starts_with as the source runs it: a scan that stops at the first mismatch and
      counts n down, succeeding as soon as n characters have matched. */
  method StartsWithScan(source: string, prefix: string, sensitive: bool, n: int) returns (b: bool)
    ensures b == StartsWith(source, prefix, sensitive, n)
  {
    if |prefix| > |source| {
      return false;
    }
    if |source| == 0 || |prefix| == 0 {
      return false;
    }
    var i, left := 0, n;
    while i < |prefix| && SameChar(prefix[i], source[i], sensitive)
      invariant 0 <= i <= |prefix|
      invariant n > 0 ==> left == n - i && i < n
      invariant n <= 0 ==> left == n
      invariant forall j :: 0 <= j < i ==> SameChar(prefix[j], source[j], sensitive)
    {
      if left > 0 {
        left := left - 1;
        if left <= 0 {
          return true;
        }
      }
      i := i + 1;
    }
    return i == |prefix|;
  }

  /** With the defaults used by the scanner (case-insensitive, no count), starting
      with "-" means exactly that the first character is a dash. */
  lemma StartsWithDash(s: string)
    ensures StartsWith(s, "-", false, -1) <==> |s| > 0 && s[0] == '-'
  {
    if |s| > 0 {
      assert ToLower('-') == '-';
      assert ToLower(s[0]) == '-' ==> s[0] == '-';
    }
  }

  /** std::find: the position of the first occurrence of x in s, or |s| when absent. */
  function IndexOf(s: seq<string>, x: string): (i: nat)
    ensures i <= |s|
    ensures i < |s| ==> s[i] == x
    ensures forall j :: 0 <= j < i ==> s[j] != x
  {
    if s == [] then 0
    else if s[0] == x then 0
    else 1 + IndexOf(s[1..], x)
  }

  /** The std::string read from a char buffer holding c and a terminating NUL: the
      single character c, or nothing when c is itself NUL. */
  function CString(c: char): (r: string)
    ensures |r| <= 1
    ensures c == '\0' <==> r == []
    ensures r != [] ==> r[0] == c
  {
    if c == '\0' then [] else [c]
  }

  class LineParser {
    /** The arguments after the program name, in order; never changed after construction. */
    const tokens: seq<string>

    /** Captures argv[1..]; argv[0], the program name, is dropped. */
    constructor (argv: seq<string>)
      ensures |tokens| == if |argv| == 0 then 0 else |argv| - 1
      ensures forall i :: 0 <= i < |tokens| ==> tokens[i] == argv[i + 1]
    {
      var captured: seq<string> := [];
      var i := 1;
      while i < |argv|
        invariant 1 <= i <= if |argv| == 0 then 1 else |argv|
        invariant |captured| == i - 1
        invariant forall j :: 0 <= j < |captured| ==> captured[j] == argv[j + 1]
      {
        captured := captured + [argv[i]];
        i := i + 1;
      }
      tokens := captured;
    }

    /** getOption(string): the token right after the first occurrence of the flag,
        unless there is none or it looks like another flag (starts with "-"). The
        empty string stands for "no value". */
    function GetOption(option: string): (r: string)
      ensures r != [] ==> r[0] != '-'
      ensures r != [] ==>
        exists i :: 0 <= i < |tokens| - 1 && tokens[i] == option && option !in tokens[..i] && tokens[i + 1] == r
      ensures option !in tokens ==> r == []
      ensures |tokens| > 0 && tokens[|tokens| - 1] == option && option !in tokens[..|tokens| - 1] ==> r == []
      ensures forall i :: 0 <= i < |tokens| - 1 && tokens[i] == option && option !in tokens[..i] ==>
        r == if |tokens[i + 1]| > 0 && tokens[i + 1][0] == '-' then [] else tokens[i + 1]
    {
      var i := IndexOf(tokens, option);
      assert option !in tokens[..i];
      if i + 1 < |tokens| then
        StartsWithDash(tokens[i + 1]);
        if !StartsWith(tokens[i + 1], "-", false, -1) then tokens[i + 1] else []
      else
        []
    }

    /** getOption(char): looks up the token spelled by the two-byte buffer {c, NUL},
        without a dash; for c == NUL that buffer spells the empty string. */
    function GetOptionChar(c: char): (r: string)
      ensures r != [] ==> CString(c) in tokens && r[0] != '-'
      ensures c != '\0' ==> r == GetOption([c])
      ensures c == '\0' ==> r == GetOption([])
    {
      GetOption(CString(c))
    }

    /** hasOption(string): whether the flag occurs verbatim among the tokens. */
    function HasOption(option: string): (b: bool)
      ensures b <==> option in tokens
    {
      IndexOf(tokens, option) < |tokens|
    }

    /** hasOption(char): whether "-c" occurs among the tokens. */
    function HasOptionChar(c: char): (b: bool)
      ensures b <==> ['-', c] in tokens
    {
      HasOption(['-', c])
    }
  }

  /** getOption(char) and hasOption(char) disagree on the flag they look for: on the
      command line "-d 5", hasOption('d') holds while getOption('d') finds no value,
      because it searches "d" and not "-d". */
  lemma CharLookupAsymmetry(p: LineParser)
    requires p.tokens == ["-d", "5"]
    ensures p.HasOptionChar('d')
    ensures p.GetOption("-d") == "5"
    ensures p.GetOptionChar('d') == ""
  {
    assert p.tokens[0] == "-d";
    assert "d" != "-d" && "d" != "5";
    assert "d" !in p.tokens;
  }

  /** Looking up NUL as a character searches the empty token: on the command line
      '' x, getOption('\0') finds "x". */
  lemma NulCharLookup(p: LineParser)
    requires p.tokens == ["", "x"]
    ensures p.GetOptionChar('\0') == "x"
  {
    assert p.tokens[0] == [];
  }
}
