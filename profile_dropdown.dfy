/** The avatar initials and the display name of components/dashboard/profile-dropdown.tsx. */
module ProfileDropdown {
  import opened Wrappers
  import opened Text

  /** The two profile fields the dropdown reads; `None` is a `null` column. */
  datatype ProfileView = ProfileView(fullName: Option<string>, email: Option<string>)

  predicate IsBlank(c: char) { c == ' ' }

  /** `n[0]` for each piece of a split, joined: an empty piece contributes nothing. */
  function FirstChars(parts: seq<string>): string {
    if parts == [] then ""
    else (if parts[0] == "" then "" else [parts[0][0]]) + FirstChars(parts[1..])
  }

  /** `profile?.full_name` or `profile?.email` when it is a non-empty string. */
  function NonEmpty(field: Option<string>): Option<string> {
    if field.Some? && field.value != "" then field else None
  }

  /** The avatar fallback text. */
  function Initials(profile: Option<ProfileView>): string
  {
    var name := if profile.Some? then NonEmpty(profile.value.fullName) else None;
    var email := if profile.Some? then NonEmpty(profile.value.email) else None;
    if name.Some? then Upper(FirstChars(SplitBy(name.value, IsBlank)))
    else if email.Some? then Upper([email.value[0]])
    else "?"
  }

  /** The name shown in the menu header: the full name, else "User". */
  function DisplayName(profile: Option<ProfileView>): (r: string)
    ensures r != ""
    ensures profile.Some? && NonEmpty(profile.value.fullName).Some? ==> r == profile.value.fullName.value
    ensures !(profile.Some? && NonEmpty(profile.value.fullName).Some?) ==> r == "User"
  {
    if profile.Some? && NonEmpty(profile.value.fullName).Some? then profile.value.fullName.value else "User"
  }

  /**
   * Independent reading of "the first letter of every word": the characters
   * of `s` that are not blanks and follow a blank or the start
   * (`atStart` says whether the character before `s` was a blank or the start).
   */
  function WordStarts(s: string, atStart: bool): string {
    if s == [] then ""
    else if s[0] == ' ' then WordStarts(s[1..], true)
    else (if atStart then [s[0]] else "") + WordStarts(s[1..], false)
  }

  lemma {:induction false} FirstCharsConcat(a: seq<string>, b: seq<string>)
    ensures FirstChars(a + b) == FirstChars(a) + FirstChars(b)
    decreases |a|
  {
    if a == [] {
      assert a + b == b;
    } else {
      assert (a + b)[1..] == a[1..] + b;
      FirstCharsConcat(a[1..], b);
    }
  }

  /** The split-map-join expression takes exactly the first character of every word. */
  lemma {:induction false} FirstCharsAreWordStarts(s: string)
    ensures FirstChars(SplitBy(s, IsBlank)) == WordStarts(s, true)
    ensures FirstChars(SplitBy(s, IsBlank)[1..]) == WordStarts(s, false)
    decreases |s|
  {
    if s != [] {
      var rest := SplitBy(s[1..], IsBlank);
      FirstCharsAreWordStarts(s[1..]);
      assert rest == [rest[0]] + rest[1..];
      FirstCharsConcat([rest[0]], rest[1..]);
      if IsBlank(s[0]) {
        assert SplitBy(s, IsBlank) == [""] + rest;
        FirstCharsConcat([""], rest);
        assert FirstChars([""]) == "";
      } else {
        var parts := [[s[0]] + rest[0]] + rest[1..];
        assert SplitBy(s, IsBlank) == parts;
        assert parts[1..] == rest[1..];
        assert FirstChars(parts) == [s[0]] + FirstChars(rest[1..]);
        if rest[0] == "" {
          assert FirstChars(rest) == FirstChars(rest[1..]);
        } else {
          assert FirstChars(rest) == [rest[0][0]] + FirstChars(rest[1..]);
          assert !IsBlank(rest[0][0]) by {
            SplitByPieces(s[1..], IsBlank);
          }
          assert s[1..][0] == rest[0][0] by {
            SplitByHead(s[1..]);
          }
        }
      }
    }
  }

  /** The first piece of a split starts with the string's first character unless that is a blank. */
  lemma SplitByHead(s: string)
    requires s != [] && SplitBy(s, IsBlank)[0] != ""
    ensures SplitBy(s, IsBlank)[0][0] == s[0]
  {
  }

  /** A name made only of blanks has no word starts. */
  lemma {:induction false} BlankNameHasNoStarts(s: string, atStart: bool)
    requires forall i :: 0 <= i < |s| ==> s[i] == ' '
    ensures WordStarts(s, atStart) == ""
    decreases |s|
  {
    if s != [] {
      BlankNameHasNoStarts(s[1..], true);
    }
  }

  /** With a full name the initials are the upper-cased word starts of the name. */
  lemma InitialsFromName(profile: ProfileView)
    requires profile.fullName.Some? && profile.fullName.value != ""
    ensures Initials(Some(profile)) == Upper(WordStarts(profile.fullName.value, true))
    ensures (forall i :: 0 <= i < |profile.fullName.value| ==> profile.fullName.value[i] == ' ') ==> Initials(Some(profile)) == ""
  {
    FirstCharsAreWordStarts(profile.fullName.value);
    if forall i :: 0 <= i < |profile.fullName.value| ==> profile.fullName.value[i] == ' ' {
      BlankNameHasNoStarts(profile.fullName.value, true);
    }
  }

  /** Without a full name the initials are the upper-cased first character of the email, else "?". */
  lemma InitialsWithoutName(profile: Option<ProfileView>)
    requires profile.None? || NonEmpty(profile.value.fullName).None?
    ensures profile.Some? && NonEmpty(profile.value.email).Some? ==>
      Initials(profile) == [UpperChar(profile.value.email.value[0])]
    ensures (profile.None? || NonEmpty(profile.value.email).None?) ==> Initials(profile) == "?"
  {
  }
}
