/**
 * Tab completion of the default REPL in libpt-cli: the command names are "help" followed by
 * one name per subcommand variant, taken from the variant's Debug text; an input completes to
 * a command only when exactly one command starts with it. The Debug texts of the variants, in
 * their iteration order, are the parameter `debugs`.
 */
module ReplCompletion {
  import opened Wrappers

  /** ASCII whitespace; `split_whitespace` also splits at the other Unicode spaces. */
  predicate IsWhitespace(c: char)
  {
    c == ' ' || c == '\t' || c == '\n' || c == '\r' || c == '\U{0B}' || c == '\U{0C}'
  }

  /** `str::to_lowercase`, on ASCII letters. */
  function LowerChar(c: char): char
  {
    if 'A' <= c <= 'Z' then (c as int - 'A' as int + 'a' as int) as char else c
  }

  function Lower(s: string): (r: string)
    ensures |r| == |s| && forall i :: 0 <= i < |s| ==> r[i] == LowerChar(s[i])
    // no upper-case ASCII letter is left, and every other character is kept
    ensures forall i :: 0 <= i < |r| ==> !('A' <= r[i] <= 'Z')
    ensures forall i :: 0 <= i < |s| && !('A' <= s[i] <= 'Z') ==> r[i] == s[i]
  {
    seq(|s|, i requires 0 <= i < |s| => LowerChar(s[i]))
  }

  /** Whether the text holds a word at all; `.next().unwrap()` panics otherwise. */
  predicate HasWord(s: string)
  {
    exists i :: 0 <= i < |s| && !IsWhitespace(s[i])
  }

  /** The text from its first non-whitespace character on. */
  function SkipSpace(s: string): (r: string)
    ensures |r| <= |s|
    ensures r == s[|s| - |r|..]
    ensures r == [] || !IsWhitespace(r[0])
    ensures forall i :: 0 <= i < |s| - |r| ==> IsWhitespace(s[i])
  {
    if s == [] || !IsWhitespace(s[0]) then s else SkipSpace(s[1..])
  }

  /** The leading run of non-whitespace characters. */
  function TakeWord(s: string): (r: string)
    ensures |r| <= |s| && r == s[..|r|]
    ensures forall i :: 0 <= i < |r| ==> !IsWhitespace(r[i])
    ensures |r| < |s| ==> IsWhitespace(s[|r|])
  {
    if s == [] || IsWhitespace(s[0]) then [] else [s[0]] + TakeWord(s[1..])
  }

  /** The first whitespace-separated word of the text. */
  function FirstWord(s: string): string
  {
    TakeWord(SkipSpace(s))
  }

  /** A single word: non-empty and free of whitespace. */
  predicate IsWord(w: string)
  {
    |w| > 0 && forall j :: 0 <= j < |w| ==> !IsWhitespace(w[j])
  }

  /** Lower-casing is idempotent. */
  lemma LowerIdempotent(s: string)
    ensures Lower(Lower(s)) == Lower(s)
  {
    var l := Lower(s);
    assert forall i :: 0 <= i < |l| ==> Lower(l)[i] == l[i];
  }

  /** A text with a word has a non-empty first word, free of whitespace. */
  lemma {:induction false} FirstWordShape(s: string)
    requires HasWord(s)
    ensures IsWord(FirstWord(s))
    decreases |s|
  {
    if IsWhitespace(s[0]) {
      var i :| 0 <= i < |s| && !IsWhitespace(s[i]);
      assert s[1..][i - 1] == s[i];
      assert SkipSpace(s) == SkipSpace(s[1..]);
      FirstWordShape(s[1..]);
    } else {
      assert SkipSpace(s) == s;
      assert TakeWord(s)[0] == s[0];
    }
  }

  /** The name a variant contributes: its first Debug word, lower-cased. */
  function CommandName(debug: string): string
  {
    Lower(FirstWord(debug))
  }

  /** What `commands()` returns. */
  function CommandList(debugs: seq<string>): (r: seq<string>)
    ensures |r| == |debugs| + 1 && r[0] == "help"
  {
    ["help"] + seq(|debugs|, i requires 0 <= i < |debugs| => CommandName(debugs[i]))
  }

  /** After "help", the i-th variant contributes the name at position i + 1. */
  lemma CommandListName(debugs: seq<string>, i: nat)
    requires i < |debugs|
    ensures CommandList(debugs)[i + 1] == CommandName(debugs[i])
  {
  }

  /** `commands()`: "help", then one name per variant in iteration order. */
  method Commands(debugs: seq<string>) returns (buf: seq<string>)
    requires forall i :: 0 <= i < |debugs| ==> HasWord(debugs[i])
    ensures buf == CommandList(debugs)
  {
    buf := ["help"];
    var k := 0;
    while k < |debugs|
      invariant 0 <= k <= |debugs|
      invariant buf == ["help"] + Names(debugs, k)
    {
      var name := Lower(FirstWord(debugs[k]));
      NamesSnoc(debugs, k);
      buf := buf + [name];
      k := k + 1;
    }
  }

  /** The names of the first k variants. */
  function Names(debugs: seq<string>, k: nat): seq<string>
    requires k <= |debugs|
  {
    seq(k, i requires 0 <= i < k => CommandName(debugs[i]))
  }

  lemma NamesSnoc(debugs: seq<string>, k: nat)
    requires k < |debugs|
    ensures Names(debugs, k + 1) == Names(debugs, k) + [CommandName(debugs[k])]
  {
  }

  /** Lower-casing a word leaves a word. */
  lemma LowerKeepsWord(w: string)
    requires IsWord(w)
    ensures IsWord(Lower(w))
  {
    var l := Lower(w);
    forall j | 0 <= j < |l|
      ensures !IsWhitespace(l[j])
    {
      assert !IsWhitespace(w[j]);
    }
  }

  /** Every command name is a single non-empty word. */
  lemma CommandNamesAreWords(debugs: seq<string>)
    requires forall i :: 0 <= i < |debugs| ==> HasWord(debugs[i])
    ensures forall k :: 0 <= k < |CommandList(debugs)| ==> IsWord(CommandList(debugs)[k])
  {
    var cs := CommandList(debugs);
    forall k | 0 <= k < |cs|
      ensures IsWord(cs[k])
    {
      if k == 0 {
        HelpIsWord(debugs);
      } else {
        NameIsWord(debugs, k - 1);
      }
    }
  }

  lemma HelpIsWord(debugs: seq<string>)
    ensures IsWord(CommandList(debugs)[0])
  {
    var h := CommandList(debugs)[0];
    assert h == "help";
    assert forall j :: 0 <= j < |h| ==> h[j] in "help";
  }

  lemma NameIsWord(debugs: seq<string>, i: nat)
    requires i < |debugs| && HasWord(debugs[i])
    ensures IsWord(CommandList(debugs)[i + 1])
  {
    FirstWordShape(debugs[i]);
    LowerKeepsWord(FirstWord(debugs[i]));
    CommandListName(debugs, i);
  }

  // ---------------------------------------------------------------------------------------
  // get

  predicate StartsWith(s: string, prefix: string)
  {
    |prefix| <= |s| && s[..|prefix|] == prefix
  }

  /** The commands that start with the input, in order. */
  function Matches(commands: seq<string>, input: string): seq<string>
  {
    if commands == [] then []
    else
      var last := commands[|commands| - 1];
      Matches(commands[..|commands| - 1], input) + (if StartsWith(last, input) then [last] else [])
  }

  /** The positions of the commands that start with the input. */
  function MatchIndices(commands: seq<string>, input: string): set<nat>
  {
    set i: nat | i < |commands| && StartsWith(commands[i], input)
  }

  /** `get`: the one command that starts with the input, if there is exactly one. */
  function Get(commands: seq<string>, input: string): (r: Option<string>)
    // a completion is one of the commands, and it starts with the input
    ensures r.Some? ==> r.value in commands && StartsWith(r.value, input)
  {
    MatchesAreMatching(commands, input);
    var m := Matches(commands, input);
    if |m| == 1 then Some(m[0]) else None
  }

  /** The matches are one per matching position, and each is the command at such a position. */
  lemma {:induction false} MatchesAreMatching(commands: seq<string>, input: string)
    ensures |Matches(commands, input)| == |MatchIndices(commands, input)|
    ensures forall k :: 0 <= k < |Matches(commands, input)| ==>
              exists i :: i in MatchIndices(commands, input) && Matches(commands, input)[k] == commands[i]
    decreases |commands|
  {
    if commands != [] {
      var n := |commands| - 1;
      var init := commands[..n];
      MatchesAreMatching(init, input);
      MatchIndicesSnoc(commands, input);
      var now := MatchIndices(commands, input);
      var m := Matches(commands, input);
      forall k | 0 <= k < |m|
        ensures exists i :: i in now && m[k] == commands[i]
      {
        if k < |Matches(init, input)| {
          var i :| i in MatchIndices(init, input) && Matches(init, input)[k] == init[i];
          assert i in now && m[k] == commands[i];
        } else {
          assert n in now && m[k] == commands[n];
        }
      }
    }
  }

  /** A further command adds its own position to the matching ones when it matches. */
  lemma MatchIndicesSnoc(commands: seq<string>, input: string)
    requires commands != []
    ensures var n := |commands| - 1;
            var before := MatchIndices(commands[..n], input);
            && n !in before
            && MatchIndices(commands, input) == before + (if StartsWith(commands[n], input) then {n} else {})
  {
  }

  /**
   * `get(input)` is `Some(s)` exactly when one command position starts with the input, and
   * `s` is the command there.
   */
  lemma GetUnique(commands: seq<string>, input: string)
    ensures Get(commands, input).Some? <==> |MatchIndices(commands, input)| == 1
    ensures Get(commands, input).Some? ==>
              exists i :: MatchIndices(commands, input) == {i} && Get(commands, input).value == commands[i]
  {
    MatchesAreMatching(commands, input);
    var idx := MatchIndices(commands, input);
    if |idx| == 1 {
      var m := Matches(commands, input);
      var i :| i in idx && m[0] == commands[i];
      SingletonSet(idx, i);
    }
  }

  lemma SingletonSet(s: set<nat>, x: nat)
    requires |s| == 1 && x in s
    ensures s == {x}
  {
    var rest := s - {x};
    assert |rest| == 0;
  }

  /** With at least one variant the empty input matches "help" and that variant, so it never completes. */
  lemma EmptyInputNeverCompletes(debugs: seq<string>)
    requires |debugs| >= 1
    ensures Get(CommandList(debugs), "") == None
  {
    var cs := CommandList(debugs);
    GetUnique(cs, "");
    assert 0 in MatchIndices(cs, "") && 1 in MatchIndices(cs, "");
    assert {0, 1} <= MatchIndices(cs, "");
    SubsetCard({0, 1}, MatchIndices(cs, ""));
  }

  lemma SubsetCard(a: set<nat>, b: set<nat>)
    requires a <= b
    ensures |a| <= |b|
  {
    assert b == a + (b - a);
  }

  /** Input that no command starts with gives nothing. */
  lemma NoMatchNoCompletion(commands: seq<string>, input: string)
    requires forall i :: 0 <= i < |commands| ==> !StartsWith(commands[i], input)
    ensures Get(commands, input) == None
  {
    GetUnique(commands, input);
    assert MatchIndices(commands, input) == {};
  }
}
