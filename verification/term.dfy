/**
 * The input side of the libpt-ccc calculator: a `Term` keeps the expression as typed, a
 * filtered copy of it and an eventual result. `filter` refuses ASCII control characters and
 * drops spaces; `prepare` stores the filtered text and then refuses every character, since no
 * token is recognised yet; `process` stores a fixed placeholder result.
 */
module CccTerm {
  import opened Wrappers

  /** The calculator's error; only the syntax error arises here. */
  datatype Error = SyntaxError(reason: string)

  /** A computed value; `process` only ever stores the integer 19. */
  datatype Value = Integer(n: int)

  // ---------------------------------------------------------------------------------------
  // Character classes

  /** `is_ignore`: only the space is ignored. */
  predicate IsIgnore(c: char)
    // the ignored character is neither an operator nor refused by the filter
    ensures IsIgnore(c) ==> !IsAllowedSpecial(c) && !IsAsciiControl(c)
  {
    c == ' '
  }

  /** `is_allowed_special_c`: the five operator characters. */
  predicate IsAllowedSpecial(c: char)
    // operators pass the filter and are not alphanumeric
    ensures IsAllowedSpecial(c) ==> !IsAsciiControl(c) && !IsAlphanumeric(c)
  {
    c == '+' || c == '-' || c == '*' || c == '/' || c == '%'
  }

  /** `char::is_ascii_control`: U+0000 to U+001F and U+007F. */
  predicate IsAsciiControl(c: char)
  {
    c <= '\U{1F}' || c == '\U{7F}'
  }

  /**
   * `char::is_alphanumeric` is Unicode-wide; the model knows it only on ASCII, and the filter's
   * outcome does not depend on it (see `GuardIsControl`).
   */
  predicate IsAlphanumeric(c: char)
  {
    '0' <= c <= '9' || 'a' <= c <= 'z' || 'A' <= c <= 'Z'
  }

  /** The rejection test of `filter`, for any answer `alnum` of `is_alphanumeric`. */
  predicate Rejected(c: char, alnum: bool)
  {
    (!alnum || !IsAllowedSpecial(c)) && IsAsciiControl(c)
  }

  /** Whatever `is_alphanumeric` says, the test rejects exactly the ASCII control characters. */
  lemma GuardIsControl(c: char, alnum: bool)
    ensures Rejected(c, alnum) <==> IsAsciiControl(c)
  {
  }

  /** The five operators are the allowed special characters, and the space is the one ignored character. */
  lemma CharacterClasses()
    ensures forall c :: IsAllowedSpecial(c) <==> c in "+-*/%"
    ensures forall c :: IsIgnore(c) <==> c in " "
  {
  }

  // ---------------------------------------------------------------------------------------
  // filter

  function InvalidCharacter(c: char): Error
  {
    SyntaxError("'" + [c] + "' is not a valid character, only alphanumeric, punctuation, operators are allowed.")
  }

  /** The index of the first ASCII control character, if any. */
  function FirstControl(s: string): (r: Option<nat>)
    ensures r.Some? ==> r.value < |s| && IsAsciiControl(s[r.value])
                        && forall j :: 0 <= j < r.value ==> !IsAsciiControl(s[j])
    ensures r.None? ==> forall j :: 0 <= j < |s| ==> !IsAsciiControl(s[j])
  {
    if s == [] then None
    else if IsAsciiControl(s[0]) then Some(0)
    else match FirstControl(s[1..])
      case None => None
      case Some(k) => Some(k + 1)
  }

  /** The text with every ignored character (space) removed, the rest kept in order. */
  function RemoveSpaces(s: string): (r: string)
    ensures |r| <= |s|
    ensures forall j :: 0 <= j < |r| ==> !IsIgnore(r[j]) && r[j] in s
  {
    if s == [] then [] else RemoveSpaces(s[..|s| - 1]) + (if IsIgnore(s[|s| - 1]) then [] else [s[|s| - 1]])
  }

  /** What `filter(s)` returns. */
  function Filtered(s: string): (r: Result<string, Error>)
    // a failure names a control character of the text; a success holds neither spaces nor control characters
    ensures r.Err? ==> exists j :: 0 <= j < |s| && IsAsciiControl(s[j]) && r.error == InvalidCharacter(s[j])
    ensures r.Ok? ==> |r.value| <= |s| && forall j :: 0 <= j < |r.value| ==> !IsIgnore(r.value[j]) && !IsAsciiControl(r.value[j])
  {
    match FirstControl(s)
    case Some(k) => Err(InvalidCharacter(s[k]))
    case None => Ok(RemoveSpaces(s))
  }

  method Filter(s: string) returns (r: Result<string, Error>)
    ensures r == Filtered(s)
  {
    var i := 0;
    while i < |s|
      invariant 0 <= i <= |s|
      invariant forall j :: 0 <= j < i ==> !IsAsciiControl(s[j])
    {
      var c := s[i];
      if Rejected(c, IsAlphanumeric(c)) {
        FirstControlAt(s, i);
        return Err(InvalidCharacter(c));
      }
      i := i + 1;
    }
    var filtered := "";
    i := 0;
    while i < |s|
      invariant 0 <= i <= |s|
      invariant filtered == RemoveSpaces(s[..i])
    {
      var c := s[i];
      if !IsIgnore(c) {
        filtered := filtered + [c];
      }
      RemoveSpacesPrefix(s, i);
      i := i + 1;
    }
    assert s[..i] == s;
    return Ok(filtered);
  }

  /** The first control character is the one that no earlier control character precedes. */
  lemma FirstControlAt(s: string, i: nat)
    requires i < |s| && IsAsciiControl(s[i])
    requires forall j :: 0 <= j < i ==> !IsAsciiControl(s[j])
    ensures FirstControl(s) == Some(i)
  {
  }

  lemma RemoveSpacesPrefix(s: string, i: nat)
    requires i < |s|
    ensures RemoveSpaces(s[..i + 1]) == RemoveSpaces(s[..i]) + (if IsIgnore(s[i]) then [] else [s[i]])
  {
    assert s[..i + 1][..i] == s[..i];
  }

  // ---------------------------------------------------------------------------------------
  // Properties of filter

  /** `filter` fails exactly when the text holds an ASCII control character. */
  lemma FilterFailsOnControl(s: string)
    ensures Filtered(s).Err? <==> exists j :: 0 <= j < |s| && IsAsciiControl(s[j])
  {
  }

  lemma {:induction false} RemoveSpacesAppend(a: string, b: string)
    ensures RemoveSpaces(a + b) == RemoveSpaces(a) + RemoveSpaces(b)
    decreases |b|
  {
    if b == [] {
      assert a + b == a;
    } else {
      assert (a + b)[..|a + b| - 1] == a + b[..|b| - 1];
      RemoveSpacesAppend(a, b[..|b| - 1]);
    }
  }

  /** No space survives, every other character keeps its number of occurrences. */
  lemma {:induction false} RemoveSpacesCounts(s: string)
    ensures multiset(RemoveSpaces(s)) == multiset(s)[' ' := 0]
    decreases |s|
  {
    if s != [] {
      var init := s[..|s| - 1];
      var last := s[|s| - 1];
      RemoveSpacesCounts(init);
      assert multiset(s) == multiset(init) + multiset{last} by {
        assert s == init + [last];
      }
      assert multiset(RemoveSpaces(s)) == multiset(RemoveSpaces(init)) + multiset(if IsIgnore(last) then [] else [last]);
      DropSpaceStep(multiset(init), multiset(RemoveSpaces(init)), last);
    }
  }

  lemma DropSpaceStep(m: multiset<char>, kept: multiset<char>, c: char)
    requires kept == m[' ' := 0]
    ensures kept + multiset(if IsIgnore(c) then [] else [c]) == (m + multiset{c})[' ' := 0]
  {
  }

  /** The filtered text never holds a control character, so filtering it again changes nothing. */
  lemma {:induction false} RemoveSpacesIdempotent(s: string)
    ensures RemoveSpaces(RemoveSpaces(s)) == RemoveSpaces(s)
    decreases |s|
  {
    if s != [] {
      var init := s[..|s| - 1];
      var last := s[|s| - 1];
      RemoveSpacesIdempotent(init);
      var tail: string := if IsIgnore(last) then [] else [last];
      RemoveSpacesAppend(RemoveSpaces(init), tail);
      if tail != [] {
        assert tail[..0] == [];
      }
    }
  }

  /** Removing spaces neither adds nor removes a control character. */
  lemma RemoveSpacesKeepsControl(s: string)
    ensures FirstControl(RemoveSpaces(s)).None? <==> FirstControl(s).None?
  {
    RemoveSpacesCounts(s);
    ControlFree(s);
    ControlFree(RemoveSpaces(s));
    SpaceIsNotControl(multiset(s));
  }

  lemma SpaceIsNotControl(m: multiset<char>)
    ensures (forall c :: c in m[' ' := 0] ==> !IsAsciiControl(c)) <==> (forall c :: c in m ==> !IsAsciiControl(c))
  {
    if forall c :: c in m[' ' := 0] ==> !IsAsciiControl(c) {
      forall c | c in m
        ensures !IsAsciiControl(c)
      {
        if c != ' ' {
          assert c in m[' ' := 0];
        }
      }
    }
  }

  /** A text is free of control characters exactly when none occurs in its multiset. */
  lemma ControlFree(s: string)
    ensures FirstControl(s).None? <==> forall c :: c in multiset(s) ==> !IsAsciiControl(c)
  {
  }

  /** `filter` is idempotent on its successful results. */
  lemma FilterIdempotent(s: string)
    requires Filtered(s).Ok?
    ensures Filtered(Filtered(s).value) == Filtered(s)
  {
    RemoveSpacesKeepsControl(s);
    RemoveSpacesIdempotent(s);
  }

  // ---------------------------------------------------------------------------------------
  // Term

  class Term {
    /** the expression as typed */
    const original: string
    /** the filtered expression, set by `prepare` */
    var text: string
    var result: Option<Result<Value, Error>>

    /** `Term::new`, which always succeeds. */
    constructor (orig: string)
      ensures original == orig && text == "" && result == None
    {
      original := orig;
      text := "";
      result := None;
    }

    /**
     * `prepare`: store `filter(original)` (returning its error unchanged if it fails), then
     * refuse the first character, since no character is recognised yet.
     */
    method Prepare() returns (r: Result<Unit, Error>)
      modifies this
      ensures r == Prepared(original)
      ensures Filtered(original).Ok? ==> text == Filtered(original).value
      ensures Filtered(original).Err? ==> text == old(text)
      ensures result == old(result)
    {
      var f := Filter(original);
      if f.Err? {
        return Err(f.error);
      }
      text := f.value;
      // the loop over the characters returns on its first iteration: no arm but the catch-all
      if |original| > 0 {
        return Err(Unidentified(original[0]));
      }
      return Ok(Unit);
    }

    /** `process`: a placeholder that always stores 19 as the result. */
    method Process() returns (r: Result<Unit, Error>)
      modifies this
      ensures r == Ok(Unit) && result == Some(Ok(Integer(19))) && text == old(text)
    {
      result := Some(Ok(Integer(19)));
      r := Ok(Unit);
    }
  }

  function Unidentified(c: char): Error
  {
    SyntaxError("The meaning of '" + [c] + "' could not be identified.")
  }

  /** What `prepare` returns for a term typed as `original`. */
  function Prepared(original: string): (r: Result<Unit, Error>)
    // only the empty expression is accepted, and a filter failure is passed on unchanged
    ensures r.Ok? ==> original == []
    ensures Filtered(original).Err? ==> r == Err(Filtered(original).error)
  {
    match Filtered(original)
    case Err(e) => Err(e)
    case Ok(_) => if original == [] then Ok(Unit) else Err(Unidentified(original[0]))
  }

  /** `prepare` succeeds only on the empty expression; every other one is a syntax error. */
  lemma PrepareOnlyAcceptsEmpty(original: string)
    ensures Prepared(original).Ok? <==> original == []
    ensures Prepared(original).Err? ==> Prepared(original).error.SyntaxError?
  {
  }
}
