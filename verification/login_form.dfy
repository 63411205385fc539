/** `LoginForm`: pick a name from the roster and submit it. The submit button is disabled
    while nothing is picked; the handler ignores a choice that is only white space and
    otherwise logs in with the choice as it is, untrimmed. */
module LoginForm {
  import opened Collections
  import opened CommissionTable

  /** The code points `String.prototype.trim` removes: the white space and line terminators
      of sections 12.2 and 12.3 of ECMA-262. */
  predicate IsJsWhitespace(c: char) {
    || c == '\t' || c == '\n' || c == '\U{000B}' || c == '\U{000C}' || c == '\r'
    || c == ' ' || c == '\U{00A0}' || c == '\U{1680}'
    || ('\U{2000}' <= c <= '\U{200A}')
    || c == '\U{2028}' || c == '\U{2029}' || c == '\U{202F}' || c == '\U{205F}'
    || c == '\U{3000}' || c == '\U{FEFF}'
  }

  predicate Blank(s: string) {
    forall i :: 0 <= i < |s| ==> IsJsWhitespace(s[i])
  }

  /** The white space at the front removed: a suffix of `s` that starts with a non-space,
      empty exactly when `s` is all white space. */
  function TrimStart(s: string): (r: string)
    ensures |r| <= |s| && r == s[|s| - |r|..]
    ensures forall i :: 0 <= i < |s| - |r| ==> IsJsWhitespace(s[i])
    ensures |r| > 0 ==> !IsJsWhitespace(r[0])
    ensures r == [] <==> Blank(s)
    decreases |s|
  {
    if |s| > 0 && IsJsWhitespace(s[0]) then
      assert Blank(s) <==> Blank(s[1..]) by {
        assert forall i :: 1 <= i < |s| ==> s[i] == s[1..][i - 1];
      }
      TrimStart(s[1..])
    else s
  }

  /** The white space at the back removed: a prefix of `s` that ends with a non-space,
      empty exactly when `s` is all white space. */
  function TrimEnd(s: string): (r: string)
    ensures |r| <= |s| && r == s[..|r|]
    ensures forall i :: |r| <= i < |s| ==> IsJsWhitespace(s[i])
    ensures |r| > 0 ==> !IsJsWhitespace(r[|r| - 1])
    ensures r == [] <==> Blank(s)
    decreases |s|
  {
    if |s| > 0 && IsJsWhitespace(s[|s| - 1]) then
      assert Blank(s) <==> Blank(s[..|s| - 1]) by {
        assert forall i :: 0 <= i < |s| - 1 ==> s[i] == s[..|s| - 1][i];
      }
      TrimEnd(s[..|s| - 1])
    else s
  }

  /** `String.prototype.trim`: empty exactly when `s` is all white space, and otherwise
      starting and ending with a non-space (`TrimSurrounds` places it inside `s`). */
  function Trim(s: string): (r: string)
    ensures |r| <= |s|
    ensures r == [] <==> Blank(s)
    ensures |r| > 0 ==> !IsJsWhitespace(r[0]) && !IsJsWhitespace(r[|r| - 1])
  {
    TrimEnd(TrimStart(s))
  }

  /** `trim` removes white space and only white space: `s` is some leading white space,
      then the trimmed string, then some trailing white space. */
  lemma TrimSurrounds(s: string)
    ensures exists a ::
      && 0 <= a <= |s| - |Trim(s)|
      && (s == s[..a] + Trim(s) + s[a + |Trim(s)|..])
      && Blank(s[..a]) && Blank(s[a + |Trim(s)|..])
  {
    var t := TrimStart(s);
    Surrounded(s, t, TrimEnd(t));
  }

  /** The same, for any suffix `t` after white space and prefix `r` of `t` before white
      space. */
  lemma Surrounded(s: string, t: string, r: string)
    requires |t| <= |s| && t == s[|s| - |t|..]
    requires forall i :: 0 <= i < |s| - |t| ==> IsJsWhitespace(s[i])
    requires |r| <= |t| && r == t[..|r|]
    requires forall i :: |r| <= i < |t| ==> IsJsWhitespace(t[i])
    ensures var a := |s| - |t|;
      && (s == s[..a] + r + s[a + |r|..])
      && Blank(s[..a]) && Blank(s[a + |r|..])
  {
    var a := |s| - |t|;
    assert s[a + |r|..] == t[|r|..];
    assert s == s[..a] + r + s[a + |r|..];
  }

  /** Trimming twice is trimming once. */
  lemma TrimIdempotent(s: string)
    ensures Trim(Trim(s)) == Trim(s)
  {
    var t := Trim(s);
    assert TrimStart(t) == t;
    assert TrimEnd(t) == t;
  }

  /** A string that neither starts nor ends with white space is its own trim. */
  lemma TrimOfTrimmed(s: string)
    requires |s| > 0 ==> !IsJsWhitespace(s[0]) && !IsJsWhitespace(s[|s| - 1])
    ensures Trim(s) == s
  {
    assert TrimStart(s) == s;
  }

  /** `handleSubmit`: the name handed to `onLogin`, if it is called. It is called when the
      trimmed choice is non-empty, and it gets the choice untrimmed. */
  function HandleSubmit(selected: string): (r: Option<string>)
    ensures r.Some? <==> exists i :: 0 <= i < |selected| && !IsJsWhitespace(selected[i])
    ensures r.Some? ==> r.value == selected
  {
    if Trim(selected) != [] then Some(selected) else None
  }

  /** `disabled={!selectedUser}`: only the empty choice disables the button. */
  predicate SubmitDisabled(selected: string) {
    selected == ""
  }

  /** A disabled button never logs anybody in; a choice of one space enables the button, but
      the handler still refuses it. */
  lemma DisabledNeverLogsIn(selected: string)
    ensures SubmitDisabled(selected) ==> HandleSubmit(selected).None?
    ensures !SubmitDisabled(" ") && HandleSubmit(" ").None?
  {
    assert IsJsWhitespace(" "[0]);
  }

  /** One `<option>` of the select. */
  datatype Choice = Choice(value: string, text: string)

  const PromptLabel: string := "-- Vyberte uživatele --"

  /** The prompt with the empty value, then one option per available user. */
  function Options(users: seq<string>): (r: seq<Choice>)
    ensures |r| == |users| + 1 && r[0] == Choice("", PromptLabel)
    ensures forall i :: 0 <= i < |users| ==> r[i + 1] == Choice(users[i], users[i])
  {
    [Choice("", PromptLabel)] + seq(|users|, i requires 0 <= i < |users| => Choice(users[i], users[i]))
  }

  /** The select's `onChange`: the chosen option's value becomes `selectedUser`. */
  function Pick(users: seq<string>, index: int): (selected: string)
    requires 0 <= index <= |users|
    ensures index == 0 ==> selected == ""
    ensures index > 0 ==> selected == users[index - 1]
  {
    Options(users)[index].value
  }

  /** Submitting the form of a session: log in with the submitted name, or change nothing. */
  function Submit(s: Session, selected: string): (r: Session)
    ensures HandleSubmit(selected).None? ==> r == s
    ensures HandleSubmit(selected).Some? ==> r == Login(s, selected) && IsLoggedIn(r.currentUser)
  {
    var name := HandleSubmit(selected);
    if name.Some? then Login(s, name.value) else s
  }

  /** On the first render the form offers the prompt and the ten people of the roster. */
  lemma RosterOptions()
    ensures var opts := Options(AvailableUsers(InitialData));
      |opts| == 11 && opts[0].value == ""
      && forall i :: 1 <= i < |opts| ==> opts[i].value == RosterPeople[i - 1]
  {
    AvailableUsersOfRoster();
  }

  /** Every roster person has a name of visible characters. */
  lemma PeopleAreNotBlank()
    ensures forall i :: 0 <= i < |RosterPeople| ==> !Blank(RosterPeople[i])
  {
    forall i | 0 <= i < |RosterPeople|
      ensures !Blank(RosterPeople[i])
    {
      assert !IsJsWhitespace(RosterPeople[i][0]);
    }
  }

  /** Picking any person of the roster (the users the first render offers, by
      `AvailableUsersOfRoster`) and submitting logs that person in, under exactly the
      offered name; picking the prompt logs nobody in. */
  lemma PickingARosterPersonLogsIn(s: Session, index: int)
    requires 0 <= index <= |RosterPeople|
    ensures var selected := Pick(RosterPeople, index);
      (index == 0 ==> Submit(s, selected) == s)
      && (index > 0 ==> Submit(s, selected).currentUser == Some(RosterPeople[index - 1]))
  {
    PeopleAreNotBlank();
    if index > 0 {
      var p := RosterPeople[index - 1];
      assert !Blank(p);
      assert HandleSubmit(p).Some?;
    }
  }
}
