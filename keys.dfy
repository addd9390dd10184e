/** The two tests the Escape filter applies to a keydown event: the key code, and the
    name of the element the event was sent to. */
module Keys {

  /** The key code of Escape. */
  const EscapeCode: int := 27

  /** `ev.which || ev.keyCode`: `which` unless it is falsy. An absent `which` is
      modelled as 0, its falsy value. */
  function EffectiveCode(which: int, keyCode: int): int
  {
    if which != 0 then which else keyCode
  }

  /** The key code test of the Escape filter. `which` decides when it is set: a non-zero
      `which` other than 27 hides a `keyCode` of 27, and `keyCode` is looked at only when
      `which` is 0. */
  predicate IsEscape(which: int, keyCode: int): (r: bool)
    ensures r <==> which == EscapeCode || (which == 0 && keyCode == EscapeCode)
  {
    EffectiveCode(which, keyCode) == EscapeCode
  }

  /** The case folding of a JavaScript `/i` pattern whose letters are all ASCII: only
      'A'..'Z' fold (to 'a'..'z'); every other character only matches itself. */
  function Lower(c: char): char {
    if 'A' <= c <= 'Z' then (c as int - 'A' as int + 'a' as int) as char else c
  }

  /** The lower-case word `w` occurs in `s` at position `i`, ignoring case. */
  predicate MatchesAt(s: string, i: nat, w: string) {
    i + |w| <= |s| && forall j :: i <= j < i + |w| ==> Lower(s[j]) == w[j - i]
  }

  /** `/w/i.test(s)`: the word occurs somewhere in `s`, ignoring case. */
  ghost predicate ContainsWord(s: string, w: string) {
    exists i: nat :: MatchesAt(s, i, w)
  }

  /** Dropping the first character shifts every match position down by one. */
  lemma MatchesAtTail(s: string, i: nat, w: string)
    requires |s| > 0
    ensures MatchesAt(s, i + 1, w) <==> MatchesAt(s[1..], i, w)
  {
  }

  /** The search the regular expression performs: try every start position in turn. */
  function Occurs(s: string, w: string): (r: bool)
    ensures r <==> ContainsWord(s, w)
    decreases |s|
  {
    if |s| < |w| then false
    else if MatchesAt(s, 0, w) then true
    else
      assert ContainsWord(s, w) <==> ContainsWord(s[1..], w) by {
        if ContainsWord(s, w) {
          var k: nat :| MatchesAt(s, k, w);
          MatchesAtTail(s, k - 1, w);
        }
        if ContainsWord(s[1..], w) {
          var k: nat :| MatchesAt(s[1..], k, w);
          MatchesAtTail(s, k, w);
        }
      }
      Occurs(s[1..], w)
  }

  /** `/input|textarea|select/i.test(nodeName)`: the name contains one of the three
      words, ignoring case. It is a substring test, not a comparison of tag names. */
  function IsFormControl(nodeName: string): (r: bool)
    ensures r <==> ContainsWord(nodeName, "input") || ContainsWord(nodeName, "textarea")
                   || ContainsWord(nodeName, "select")
  {
    Occurs(nodeName, "input") || Occurs(nodeName, "textarea") || Occurs(nodeName, "select")
  }

  /** The names the browser gives the three form controls are recognised. */
  lemma FormControlTags()
    ensures IsFormControl("INPUT") && IsFormControl("TEXTAREA") && IsFormControl("SELECT")
  {
    assert MatchesAt("INPUT", 0, "input");
    assert MatchesAt("TEXTAREA", 0, "textarea");
    assert MatchesAt("SELECT", 0, "select");
  }

  /** Because the test is a substring test, any name containing one of the words counts,
      such as the custom elements `md-select` and `x-input-group`. */
  lemma SubstringNamesMatch()
    ensures IsFormControl("MD-SELECT") && IsFormControl("X-INPUT-GROUP")
  {
    assert MatchesAt("MD-SELECT", 3, "select");
    assert MatchesAt("X-INPUT-GROUP", 2, "input");
  }

  /** A name shorter than every word is never a form control. */
  lemma ShortNameIsNotFormControl(nodeName: string)
    requires |nodeName| < 5
    ensures !IsFormControl(nodeName)
  {
  }

  /** A name in which some letter of the word never appears, in either case, does not
      contain the word. */
  lemma MissingLetter(s: string, w: string, k: nat)
    requires k < |w|
    requires forall j :: 0 <= j < |s| ==> Lower(s[j]) != w[k]
    ensures !ContainsWord(s, w)
  {
    forall i: nat | i + |w| <= |s|
      ensures !MatchesAt(s, i, w)
    {
      assert Lower(s[i + k]) != w[(i + k) - i];
    }
  }

  /** Two names the library must not filter: a button, and the document node (the target
      of a key pressed with no element focused). */
  lemma ButtonAndDocumentAreNotFormControls()
    ensures !IsFormControl("BUTTON") && !IsFormControl("#document")
  {
    MissingLetter("BUTTON", "input", 0);
    MissingLetter("BUTTON", "select", 0);
    MissingLetter("#document", "input", 0);
    MissingLetter("#document", "textarea", 2);
    MissingLetter("#document", "select", 0);
  }
}
