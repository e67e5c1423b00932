/**
 * tokenize of render.cpp, the benchmark-table tool: a token "key: value"
 * is split at its first ':', the one character after the colon is
 * skipped, and both parts lose their leading and trailing spaces.
 * std::string is a sequence of characters; std::string::npos is None.
 */
module Tokenize {

  datatype Option<T> = None | Some(value: T)

  /**
   * The outcome of tokenize: the (key, value) pair, or the
   * std::out_of_range that substr throws when the colon is the last
   * character.
   */
  datatype Result<T> = Ok(value: T) | OutOfRange

  /** std::string::find(c): the first index holding c, or npos. */
  function FindFirst(s: string, c: char): (r: Option<nat>)
    ensures r.Some? ==> r.value < |s| && s[r.value] == c && c !in s[..r.value]
    ensures r.None? <==> c !in s
  {
    if |s| == 0 then None
    else if s[0] == c then Some(0)
    else
      match FindFirst(s[1..], c)
      case None => None
      case Some(k) =>
        assert s[..k + 1] == [s[0]] + s[1..][..k];
        Some(k + 1)
  }

  /** std::string::find_first_not_of(c): the first index not holding c, or npos. */
  function FindFirstNotOf(s: string, c: char): (r: Option<nat>)
    ensures r.Some? ==> r.value < |s| && s[r.value] != c && forall k :: 0 <= k < r.value ==> s[k] == c
    ensures r.None? <==> forall k :: 0 <= k < |s| ==> s[k] == c
  {
    if |s| == 0 then None
    else if s[0] != c then Some(0)
    else
      match FindFirstNotOf(s[1..], c)
      case None => None
      case Some(k) => Some(k + 1)
  }

  /** std::string::find_last_not_of(c): the last index not holding c, or npos. */
  function FindLastNotOf(s: string, c: char): (r: Option<nat>)
    ensures r.Some? ==> r.value < |s| && s[r.value] != c && forall k :: r.value < k < |s| ==> s[k] == c
    ensures r.None? <==> forall k :: 0 <= k < |s| ==> s[k] == c
  {
    if |s| == 0 then None
    else if s[|s| - 1] != c then Some(|s| - 1)
    else FindLastNotOf(s[..|s| - 1], c)
  }

  /** Every character of s is a space. */
  predicate AllSpaces(s: string)
  {
    forall k :: 0 <= k < |s| ==> s[k] == ' '
  }

  /** s neither starts nor ends with a space. */
  predicate Stripped(s: string)
  {
    s == [] || (s[0] != ' ' && s[|s| - 1] != ' ')
  }

  /**
   * s.erase(0, s.find_first_not_of(' ')): with npos as the count the
   * whole string goes.
   */
  function TrimLeading(s: string): string
  {
    match FindFirstNotOf(s, ' ')
    case None => s[|s|..]
    case Some(k) => s[k..]
  }

  /**
   * s.erase(s.find_last_not_of(' ') + 1): npos + 1 wraps around to 0 in
   * size_t, so a string of spaces is erased from index 0.
   */
  function TrimTrailing(s: string): string
  {
    var from := match FindLastNotOf(s, ' ') case None => 0 case Some(k) => k + 1;
    s[..from]
  }

  /** The two erase calls tokenize applies to each part, leading spaces first. */
  function Trim(s: string): string
  {
    TrimTrailing(TrimLeading(s))
  }

  /**
   * tokenize (render.cpp:32-47). Without a colon the token comes back
   * unchanged as the key, with an empty value and no trimming. Otherwise
   * the key is the text before the first colon and the value the text from
   * two past it, both trimmed; substr fails when the colon is last.
   */
  function Tokenize(str: string): Result<(string, string)>
  {
    match FindFirst(str, ':')
    case None => Ok((str, ""))
    case Some(pos) =>
      if pos + 2 > |str| then OutOfRange
      else Ok((Trim(str[..pos]), Trim(str[pos + 2..])))
  }

  /**
   * Trim(s) is the stripped core of s: whenever s is spaces, then a
   * stripped segment s[a..b], then spaces, that segment is Trim(s).
   */
  lemma TrimUnique(s: string, a: nat, b: nat)
    requires a <= b <= |s|
    requires AllSpaces(s[..a]) && AllSpaces(s[b..]) && Stripped(s[a..b])
    ensures Trim(s) == s[a..b]
  {
    if a < b {
      TrimUniqueCore(s, a, b);
    } else {
      forall k | 0 <= k < |s|
        ensures s[k] == ' '
      {
        if k < a { assert s[..a][k] == s[k]; } else { assert s[b..][k - b] == s[k]; }
      }
      TrimLeadingSpaces(s);
    }
  }

  /** TrimUnique for a non-empty core. */
  lemma TrimUniqueCore(s: string, a: nat, b: nat)
    requires a < b <= |s|
    requires AllSpaces(s[..a]) && AllSpaces(s[b..]) && Stripped(s[a..b])
    ensures Trim(s) == s[a..b]
  {
    assert s[a] == s[a..b][0];
    TrimLeadingAt(s, a);
    var l := s[a..];
    ShiftedSlices(s, a, b - a);
    assert l[b - a - 1] == s[a..b][b - a - 1];
    TrimTrailingAt(l, b - a);
  }

  /** TrimLeading cuts a prefix of spaces and leaves nothing or a non-space first. */
  lemma TrimLeadingCut(s: string)
    ensures var r := TrimLeading(s);
      |r| <= |s| && r == s[|s| - |r|..] && AllSpaces(s[..|s| - |r|]) && (r == [] || r[0] != ' ')
  {
  }

  /** TrimTrailing cuts a suffix of spaces and leaves nothing or a non-space last. */
  lemma TrimTrailingCut(s: string)
    ensures var r := TrimTrailing(s);
      |r| <= |s| && r == s[..|r|] && AllSpaces(s[|r|..]) && (r == [] || r[|r| - 1] != ' ')
  {
  }

  /** Cutting a prefix of length a, then taking or dropping m more. */
  lemma ShiftedSlices(s: string, a: nat, m: nat)
    requires a + m <= |s|
    ensures s[a..][..m] == s[a..a + m] && s[a..][m..] == s[a + m..]
  {
  }

  /** Leading spaces up to a non-space at a: TrimLeading cuts exactly them. */
  lemma TrimLeadingAt(s: string, a: nat)
    requires a < |s| && AllSpaces(s[..a]) && s[a] != ' '
    ensures TrimLeading(s) == s[a..]
  {
  }

  /** Trailing spaces after a non-space at b - 1: TrimTrailing cuts exactly them. */
  lemma TrimTrailingAt(s: string, b: nat)
    requires 0 < b <= |s| && AllSpaces(s[b..]) && s[b - 1] != ' '
    ensures TrimTrailing(s) == s[..b]
  {
  }

  /** A string of spaces loses everything. */
  lemma TrimLeadingSpaces(s: string)
    requires AllSpaces(s)
    ensures TrimLeading(s) == [] && Trim(s) == []
  {
  }

  /** Trim leaves a stripped segment of s, with only spaces cut on either side. */
  lemma TrimCore(s: string)
    ensures var t := Trim(s);
      Stripped(t) &&
      exists a: nat :: a + |t| <= |s| && s[a..a + |t|] == t && AllSpaces(s[..a]) && AllSpaces(s[a + |t|..])
  {
    var l := TrimLeading(s);
    var a := |s| - |l|;
    var t := TrimTrailing(l);
    TrimLeadingCut(s);
    TrimTrailingCut(l);
    ShiftedSlices(s, a, |t|);
    assert l[..|t|] == t;
    assert AllSpaces(s[a + |t|..]);
    assert a + |t| <= |s| && s[a..a + |t|] == t && AllSpaces(s[..a]);
  }

  /** Trimming twice is trimming once. */
  lemma TrimIdempotent(s: string)
    ensures Trim(Trim(s)) == Trim(s)
  {
    var t := Trim(s);
    TrimCore(s);
    assert t[0..|t|] == t && t[..0] == [] && t[|t|..] == [];
    TrimUnique(t, 0, |t|);
  }

  /** A part becomes empty exactly when it is made only of spaces. */
  lemma TrimEmpty(s: string)
    ensures Trim(s) == [] <==> AllSpaces(s)
  {
    if AllSpaces(s) {
      assert s[..0] == [] && s[0..0] == [] && s[0..] == s;
      TrimUnique(s, 0, 0);
    }
  }

  /** Without a colon the token is the key, untouched, and the value is empty. */
  lemma TokenizeNoColon(str: string)
    requires ':' !in str
    ensures Tokenize(str) == Ok((str, ""))
  {
  }

  /** tokenize fails exactly when the first colon is the last character. */
  lemma TokenizeFails(str: string)
    ensures Tokenize(str) == OutOfRange <==>
      |str| > 0 && str[|str| - 1] == ':' && ':' !in str[..|str| - 1]
  {
  }

  /**
   * At the first colon pos, with a character after it: the key is the
   * trimmed text before the colon, the value the trimmed text after the
   * character following it, whatever that character is.
   */
  lemma TokenizeAt(str: string, pos: nat)
    requires pos + 1 < |str| && str[pos] == ':' && ':' !in str[..pos]
    ensures Tokenize(str) == Ok((Trim(str[..pos]), Trim(str[pos + 2..])))
  {
  }

  /** When the token holds a colon and splits, neither part starts or ends with a space, and the key holds no colon. */
  lemma TokenizeStripped(str: string)
    requires ':' in str && Tokenize(str).Ok?
    ensures var (key, value) := Tokenize(str).value;
      Stripped(key) && Stripped(value) && ':' !in key
  {
    var pos := FindFirst(str, ':').value;
    TrimCore(str[..pos]);
    TrimCore(str[pos + 2..]);
  }

  /** A part with no space at either end is left as it is. */
  lemma TrimStripped(s: string)
    requires Stripped(s)
    ensures Trim(s) == s
  {
    assert s[..0] == [] && s[0..|s|] == s && s[|s|..] == [];
    TrimUnique(s, 0, |s|);
  }

  /** Spaces, then a stripped core, then spaces: Trim keeps the core. */
  lemma TrimPadded(lead: string, core: string, trail: string)
    requires AllSpaces(lead) && Stripped(core) && AllSpaces(trail)
    ensures Trim(lead + core + trail) == core
  {
    var s := lead + core + trail;
    var a, b := |lead|, |lead| + |core|;
    assert s[..a] == lead && s[a..b] == core && s[b..] == trail;
    TrimUnique(s, a, b);
  }

  /** "key: value" splits into "key" and "value". */
  lemma TokenizeKeyValue(str: string)
    requires str == "key: value"
    ensures Tokenize(str) == Ok(("key", "value"))
  {
    var key, value := str[..3], str[5..];
    assert key == "key" && value == "value";
    TokenizeAt(str, 3);
    TrimStripped(key);
    TrimStripped(value);
  }

  /** The character after the colon is dropped even when it is not a space. */
  lemma TokenizeDropsAfterColon(str: string)
    requires str == "a:bc"
    ensures Tokenize(str) == Ok(("a", "c"))
  {
    var key, value := str[..1], str[3..];
    assert key == "a" && value == "c";
    TokenizeAt(str, 1);
    TrimStripped(key);
    TrimStripped(value);
  }

  /** Only spaces are trimmed: a tab and a later colon stay in the value. */
  lemma TokenizeKeepsTabAndColon(str: string)
    requires str == "k: \t:"
    ensures Tokenize(str) == Ok(("k", "\t:"))
  {
    var key, value := str[..1], str[3..];
    assert key == "k";
    assert value == "\t:";
    TokenizeAt(str, 1);
    TrimStripped(key);
    TrimStripped(value);
  }

  /** Spaces around the key and after the value are trimmed. */
  lemma TokenizeTrimsSpaces(str: string)
    requires str == " k : v "
    ensures Tokenize(str) == Ok(("k", "v"))
  {
    var key, value := str[..3], str[5..];
    assert key == " k " == " " + "k" + " ";
    assert value == "v " == "" + "v" + " ";
    TrimPadded(" ", "k", " ");
    TrimPadded("", "v", " ");
    assert str[3] == ':' && ':' !in " k ";
    TokenizeAt(str, 3);
  }

  /** A colon as the last character makes substr throw. */
  lemma TokenizeColonLast(str: string)
    requires str == "key:"
    ensures Tokenize(str) == OutOfRange
  {
    var key := str[..3];
    assert key == "key";
    assert ':' !in key && str[3] == ':' && |str| == 4;
    TokenizeFails(str);
  }
}
