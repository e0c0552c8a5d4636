/**
 * The predefined department list and the administrator test.
 *
 * Case mapping follows JavaScript's `toLowerCase`/`toUpperCase` on the
 * characters that matter for the allow-list: the ASCII letters, and the
 * dotless small i (U+0131), whose upper-case form is the ASCII `I`.
 */
module Departments {
  import opened TaskTypes

  /** The seeded departments, in insertion order. */
  const PREDEFINED_DEPARTMENTS: seq<string> :=
    ["TI", "Iniciação profissional", "Probem", "Gestão", "Contabilidade", "NEJ"]

  /** The administrator allow-list. */
  const ADMIN_EMAILS: seq<string> := ["admin@team.com"]

  const DOTLESS_I: char := 'ı'

  function LowerChar(c: char): char
  {
    if 'A' <= c <= 'Z' then (c as int + 32) as char else c
  }

  function UpperChar(c: char): char
  {
    if 'a' <= c <= 'z' then (c as int - 32) as char
    else if c == DOTLESS_I then 'I'
    else c
  }

  function ToLower(s: string): string
  {
    seq(|s|, i requires 0 <= i < |s| => LowerChar(s[i]))
  }

  function ToUpper(s: string): string
  {
    seq(|s|, i requires 0 <= i < |s| => UpperChar(s[i]))
  }

  /**
   * `isAdmin(userEmail)`: false for a missing or empty email, otherwise
   * whether the lower-cased email is on the allow-list.
   */
  function IsAdmin(userEmail: Option<string>): (r: bool)
    ensures userEmail == None ==> !r
    ensures userEmail == Some("") ==> !r
    ensures r ==> userEmail.Some? && ToLower(userEmail.value) == "admin@team.com"
  {
    match userEmail
    case None => false
    case Some(e) => e != "" && ToLower(e) in ADMIN_EMAILS
  }

  /** Both directions: `isAdmin(e)` holds exactly when `e` lower-cases to the admin address. */
  lemma IsAdminIff(e: string)
    ensures IsAdmin(Some(e)) <==> ToLower(e) == "admin@team.com"
  {
  }

  lemma LowerIdempotent(s: string)
    ensures ToLower(ToLower(s)) == ToLower(s)
  {
  }

  /** Lower-casing first never changes the answer. */
  lemma IsAdminOfLowerCase(e: string)
    ensures IsAdmin(Some(ToLower(e))) == IsAdmin(Some(e))
  {
    LowerIdempotent(e);
    IsAdminIff(e);
    IsAdminIff(ToLower(e));
  }

  /**
   * Upper-casing first never changes the answer, for every email without a
   * dotless i. (See `DotlessIBreaksUpperCase` for why that case is excluded.)
   */
  lemma IsAdminOfUpperCase(e: string)
    requires DOTLESS_I !in e
    ensures IsAdmin(Some(ToUpper(e))) == IsAdmin(Some(e))
  {
    assert ToLower(ToUpper(e)) == ToLower(e) by {
      forall i | 0 <= i < |e|
        ensures ToLower(ToUpper(e))[i] == ToLower(e)[i]
      {
        assert e[i] != DOTLESS_I;
      }
    }
    IsAdminIff(e);
    IsAdminIff(ToUpper(e));
  }

  /**
   * With a dotless i the two forms disagree: "admın@team.com" is not an
   * administrator, while its upper-case form "ADMIN@TEAM.COM" is.
   */
  lemma DotlessIBreaksUpperCase()
    ensures var e := "admın@team.com";
      !IsAdmin(Some(e)) && IsAdmin(Some(ToUpper(e)))
  {
    var e := "admın@team.com";
    var admin := "admin@team.com";
    IsAdminIff(e);
    assert ToLower(e)[3] == LowerChar(e[3]) == DOTLESS_I != admin[3];
    var up := ToUpper(e);
    IsAdminIff(up);
    forall i | 0 <= i < |e|
      ensures ToLower(up)[i] == admin[i]
    {
      assert ToLower(up)[i] == LowerChar(UpperChar(e[i]));
    }
    assert ToLower(up) == admin;
  }

  /** Six predefined departments, with pairwise distinct names. */
  lemma PredefinedDepartmentsDistinct()
    ensures |PREDEFINED_DEPARTMENTS| == 6
    ensures forall i, j :: 0 <= i < j < |PREDEFINED_DEPARTMENTS| ==>
      PREDEFINED_DEPARTMENTS[i] != PREDEFINED_DEPARTMENTS[j]
  {
  }
}
