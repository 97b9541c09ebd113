/** The Suomi.fi identification profile: the names and the identifier a
    login session takes from the attributes of a SAML profile. An attribute
    is absent or a string; an empty string counts as absent, as JavaScript
    truthiness has it. */
module Suomifi {
  import opened Wrappers
  import opened Text

  /** The five attributes read: `urn:oid:1.2.246.21` (national
      identification number), `urn:oid:1.2.246.22` (electronic
      identification number), `urn:oid:2.5.4.3` (common name),
      `urn:oid:2.5.4.4` (last name) and the eIDAS `CurrentGivenName`. */
  datatype Profile = Profile(
    nationalId: Option<string>,
    electronicId: Option<string>,
    commonName: Option<string>,
    lastName: Option<string>,
    firstName: Option<string>)

  datatype ProfileNames = ProfileNames(displayName: string, firstName: string, lastName: string)

  /** A truthy attribute: present and not empty. */
  predicate Truthy(a: Option<string>) { a.Some? && a.value != "" }

  /** `s || '-'`. */
  function OrDash(s: string): (r: string)
    ensures r != ""
    ensures s != "" ==> r == s
    ensures s == "" ==> r == "-"
  {
    if s != "" then s else "-"
  }

  /** `attribute || '-'`. */
  function AttributeOrDash(a: Option<string>): (r: string)
    ensures r != ""
    ensures Truthy(a) ==> r == a.value
    ensures !Truthy(a) ==> r == "-"
  {
    if Truthy(a) then a.value else "-"
  }

  /** `getNames(profile)`: the given and last name attributes when both are
      truthy; otherwise the common name read as a last name followed by
      first names; otherwise dashes. The display name is the common name,
      or `-`, in every case. */
  function GetNames(p: Profile): (r: ProfileNames)
    ensures r.displayName != "" && r.firstName != "" && r.lastName != ""
    ensures r.displayName == AttributeOrDash(p.commonName)
    ensures Truthy(p.firstName) && Truthy(p.lastName) ==>
              r.firstName == p.firstName.value && r.lastName == p.lastName.value
    ensures !(Truthy(p.firstName) && Truthy(p.lastName)) && !Truthy(p.commonName) ==>
              r == ProfileNames("-", "-", "-")
  {
    if Truthy(p.firstName) && Truthy(p.lastName) then
      ProfileNames(AttributeOrDash(p.commonName), p.firstName.value, p.lastName.value)
    else if Truthy(p.commonName) then
      var words := Split(p.commonName.value, ' ');
      ProfileNames(AttributeOrDash(p.commonName), OrDash(Join(words[1..], " ")), OrDash(words[0]))
    else
      ProfileNames("-", "-", "-")
  }

  /** Read from the common name, the last name is the text before its first
      space (all of it when it has none) and the first name the text after
      that space, each `-` when empty: the words after the first are joined
      back with the spaces they were split at. */
  lemma CommonNameSplitsAtFirstSpace(p: Profile)
    requires !(Truthy(p.firstName) && Truthy(p.lastName)) && Truthy(p.commonName)
    ensures var full := p.commonName.value;
            var r := GetNames(p);
            match IndexOf(full, ' ')
            case None => r.lastName == full && r.firstName == "-"
            case Some(i) => r.lastName == OrDash(full[..i]) && r.firstName == OrDash(full[i + 1..])
  {
    var full := p.commonName.value;
    match IndexOf(full, ' ')
    case None =>
      SplitWithout(full, ' ');
    case Some(i) =>
      var rest := full[i + 1..];
      assert Split(full, ' ') == [full[..i]] + Split(rest, ' ');
      assert Split(full, ' ')[1..] == Split(rest, ' ');
      JoinSplit(rest, ' ');
  }

  /** A common name with both parts non-empty is the last name, a space,
      and the first name. */
  lemma CommonNameRebuilt(p: Profile)
    requires !(Truthy(p.firstName) && Truthy(p.lastName)) && Truthy(p.commonName)
    requires var full := p.commonName.value;
             ' ' in full && full[0] != ' ' && full[|full| - 1] != ' '
    ensures var r := GetNames(p);
            r.lastName + " " + r.firstName == p.commonName.value
  {
    var full := p.commonName.value;
    CommonNameSplitsAtFirstSpace(p);
    var i :| IndexOf(full, ' ') == Some(i);
    assert full[..i] != "" by { assert full[i] == ' '; }
    assert full[i + 1..] != "" by { assert full[|full| - 1] != ' '; }
    assert full == full[..i] + " " + full[i + 1..];
  }

  /** `getId(profile)`: the national identification number, else the
      electronic one, else `-`. */
  function GetId(p: Profile): (r: string)
    ensures r != ""
    ensures Truthy(p.nationalId) ==> r == p.nationalId.value
    ensures !Truthy(p.nationalId) && Truthy(p.electronicId) ==> r == p.electronicId.value
    ensures !Truthy(p.nationalId) && !Truthy(p.electronicId) ==> r == "-"
  {
    if Truthy(p.nationalId) then p.nationalId.value
    else if Truthy(p.electronicId) then p.electronicId.value
    else "-"
  }

  /** The identifier is the first truthy one of the two numbers, and the
      names do not depend on either of them. */
  lemma IdAndNamesIndependent(p: Profile, national: Option<string>, electronic: Option<string>)
    ensures var q := p.(nationalId := national, electronicId := electronic);
            GetNames(q) == GetNames(p)
    ensures var q := p.(commonName := national, lastName := electronic, firstName := electronic);
            GetId(q) == GetId(p)
  {
  }
}
