/** The user record manager: loading the user list, the user form's
    validation (with the email shape check and the create-only uniqueness
    check) and the save and delete handlers. */
module UserManager {
  import opened Wrappers
  import opened Text
  import opened Json
  import opened Dedup
  import opened Forms
  import Crud

  // ----------------------------------------------------------------------
  // Loading the list

  /** The user list on screen and whether the last refresh failed. */
  datatype Listing = Listing(items: seq<Json>, loadFailed: bool)

  /** `refreshUsers`: the fetched list de-duplicated by id, in Map order
      (no sorting). A failed refresh shows an empty list. */
  function Refresh(reply: Crud.Reply): (l: Listing)
    ensures l.loadFailed <==> !reply.success || Null in Crud.ListOf(reply.data)
    ensures l.loadFailed ==> l.items == []
    ensures !l.loadFailed ==> IsDedupOf(l.items, Crud.ListOf(reply.data), Crud.IdOf)
  {
    match Crud.LoadUnique(reply)
    case None => Listing([], true)
    case Some(unique) => Listing(unique, false)
  }

  /** Refreshing a list whose ids are already distinct shows it as it is. */
  lemma RefreshKeepsDistinctList(reply: Crud.Reply)
    requires reply.success && reply.data.Arr? && Null !in reply.data.items
    requires Seqs.Distinct(Keys(reply.data.items, Crud.IdOf))
    ensures Refresh(reply) == Listing(reply.data.items, false)
  {
    DedupOfDistinct(reply.data.items, Crud.IdOf);
  }

  // ----------------------------------------------------------------------
  // The user form and its validation

  datatype UserForm = UserForm(name: string, email: string, gender: string, category: string)

  /** `/^[a-zA-Z\s\-']+$/` accepts exactly strings of these characters. */
  predicate IsUserNameChar(c: char) {
    ('a' <= c <= 'z') || ('A' <= c <= 'Z') || IsSpace(c) || c == '-' || c == '\''
  }

  /** The name rule: 2 to 50 characters after trimming, all of them from
      the allowed set. */
  predicate UserNameOk(name: string) {
    var t := Trim(name);
    2 <= |t| <= 50 && forall i :: 0 <= i < |t| ==> IsUserNameChar(t[i])
  }

  /** The characters of the class `[^\s@]`. */
  predicate IsAtom(c: char) {
    !IsSpace(c) && c != '@'
  }

  predicate AllAtoms(s: string) {
    forall i :: 0 <= i < |s| ==> IsAtom(s[i])
  }

  /** The language of `/^[^\s@]+@[^\s@]+\.[^\s@]+$/`: a non-empty run of
      atoms, `@`, a non-empty run of atoms, `.`, a non-empty run of atoms. */
  ghost predicate MatchesEmailPattern(t: string) {
    exists i, j :: 0 < i && i + 1 < j && j + 1 < |t| && t[i] == '@' && t[j] == '.'
      && AllAtoms(t[..i]) && AllAtoms(t[i + 1..j]) && AllAtoms(t[j + 1..])
  }

  /** The email shape check as a scan: split at the first `@`; the local
      part is a non-empty run of atoms, and the domain is a run of atoms
      with a `.` strictly inside it. */
  predicate EmailShapeOk(t: string) {
    match IndexOf(t, '@')
    case None => false
    case Some(i) =>
      var domain := t[i + 1..];
      && i > 0 && AllAtoms(t[..i]) && AllAtoms(domain)
      && |domain| >= 3 && '.' in domain[1..|domain| - 1]
  }

  /** The scan accepts exactly the strings the regular expression matches. */
  lemma EmailShapeMatchesPattern(t: string)
    ensures EmailShapeOk(t) <==> MatchesEmailPattern(t)
  {
    if EmailShapeOk(t) {
      EmailShapeSound(t);
    }
    if MatchesEmailPattern(t) {
      var i, j :| 0 < i && i + 1 < j && j + 1 < |t| && t[i] == '@' && t[j] == '.'
        && AllAtoms(t[..i]) && AllAtoms(t[i + 1..j]) && AllAtoms(t[j + 1..]);
      EmailShapeComplete(t, i, j);
    }
  }

  lemma EmailShapeSound(t: string)
    requires EmailShapeOk(t)
    ensures MatchesEmailPattern(t)
  {
    var i := IndexOf(t, '@').value;
    var d := t[i + 1..];
    var inner := d[1..|d| - 1];
    var k :| 0 <= k < |inner| && inner[k] == '.';
    var j := i + 2 + k;
    assert t[j] == '.';
    assert AllAtoms(t[i + 1..j]) by {
      assert t[i + 1..j] == d[..k + 1];
    }
    assert AllAtoms(t[j + 1..]) by {
      assert t[j + 1..] == d[k + 2..];
    }
  }

  lemma EmailShapeComplete(t: string, i: int, j: int)
    requires 0 < i && i + 1 < j && j + 1 < |t| && t[i] == '@' && t[j] == '.'
    requires AllAtoms(t[..i]) && AllAtoms(t[i + 1..j]) && AllAtoms(t[j + 1..])
    ensures EmailShapeOk(t)
  {
    assert forall k :: 0 <= k < i ==> t[k] == t[..i][k];
    assert IndexOf(t, '@') == Some(i);
    var d := t[i + 1..];
    assert AllAtoms(d) by {
      forall k | 0 <= k < |d| ensures IsAtom(d[k]) {
        if i + 1 + k < j {
          assert d[k] == t[i + 1..j][k];
        } else if i + 1 + k > j {
          assert d[k] == t[j + 1..][i + k - j];
        }
      }
    }
    assert d[1..|d| - 1][j - i - 2] == '.';
  }

  /** `u && typeof u.email === 'string' && u.email.toLowerCase() === email`
      for some loaded user `u`. */
  predicate EmailInUse(users: seq<Json>, email: string) {
    exists i :: 0 <= i < |users| && Get(users[i], "email").Some? && Get(users[i], "email").value.Str?
      && ToLower(Get(users[i], "email").value.s) == email
  }

  /** The email check: required, then the shape, then, when creating, the
      case-insensitive uniqueness against the loaded users. */
  function EmailMessage(email: string, creating: bool, users: seq<Json>): (m: Option<Message>)
    ensures m == Some(Required) <==> AllSpace(email)
    ensures m == Some(BadEmail) <==> !AllSpace(email) && !MatchesEmailPattern(Trim(email))
    ensures m == Some(EmailTaken) <==>
              MatchesEmailPattern(Trim(email)) && creating && EmailInUse(users, ToLower(Trim(email)))
    ensures m.None? <==>
              MatchesEmailPattern(Trim(email)) && !(creating && EmailInUse(users, ToLower(Trim(email))))
    ensures !creating ==> m != Some(EmailTaken)
  {
    EmailShapeMatchesPattern(Trim(email));
    var t := Trim(email);
    if |t| == 0 then Some(Required)
    else if !EmailShapeOk(t) then Some(BadEmail)
    else if creating && EmailInUse(users, ToLower(t)) then Some(EmailTaken)
    else None
  }

  function NameMessage(name: string): (m: Option<Message>)
    ensures m.None? <==> UserNameOk(name)
    ensures m == Some(Required) <==> AllSpace(name)
  {
    var t := Trim(name);
    if |t| == 0 then Some(Required)
    else if |t| < 2 then Some(TooShort)
    else if |t| > 50 then Some(TooLong)
    else if exists i :: 0 <= i < |t| && !IsUserNameChar(t[i]) then Some(BadCharacters)
    else None
  }

  /** The message, if any, the user form's check of `fld` produces; the
      form is being created when no record is being edited. */
  function Check(f: UserForm, creating: bool, users: seq<Json>, fld: Field): Option<Message> {
    match fld
    case Name => NameMessage(f.name)
    case Email => EmailMessage(f.email, creating, users)
    case Gender => if f.gender == "" then Some(Required) else None
    case Category => if f.category == "" then Some(Required) else None
    case _ => None
  }

  const UserFields: set<Field> := {Name, Email, Gender, Category}

  /** The user form's checks, one per field. */
  function CheckOf(f: UserForm, creating: bool, users: seq<Json>): Field -> Option<Message> {
    fld => Check(f, creating, users, fld)
  }

  /** The collected error map has an entry for a user field exactly when
      that field's message is set, holding that message. */
  lemma CollectedMessages(f: UserForm, creating: bool, users: seq<Json>)
    ensures var errs := Collect(UserFields, CheckOf(f, creating, users));
            && errs.Keys <= UserFields
            && (Name in errs <==> NameMessage(f.name).Some?)
            && (Email in errs <==> EmailMessage(f.email, creating, users).Some?)
            && (Email in errs ==> errs[Email] == EmailMessage(f.email, creating, users).value)
            && (Name in errs ==> errs[Name] == NameMessage(f.name).value)
            && (Gender in errs <==> f.gender == "")
            && (Category in errs <==> f.category == "")
            && (Gender in errs ==> errs[Gender] == Required)
            && (Category in errs ==> errs[Category] == Required)
  {
    var check := CheckOf(f, creating, users);
    assert check(Name) == NameMessage(f.name);
    assert check(Email) == EmailMessage(f.email, creating, users);
    assert check(Gender) == if f.gender == "" then Some(Required) else None;
    assert check(Category) == if f.category == "" then Some(Required) else None;
  }

  /** `validate`: every field is checked, each at most once. */
  function Validate(f: UserForm, editing: Option<Json>, users: seq<Json>): (errs: Errors)
    ensures errs.Keys <= UserFields
    ensures Name in errs <==> !UserNameOk(f.name)
    ensures Email in errs <==>
              !MatchesEmailPattern(Trim(f.email)) || (editing.None? && EmailInUse(users, ToLower(Trim(f.email))))
    ensures Gender in errs <==> f.gender == ""
    ensures Category in errs <==> f.category == ""
    ensures Email in errs ==> errs[Email] == EmailMessage(f.email, editing.None?, users).value
    ensures Name in errs ==> errs[Name] == NameMessage(f.name).value
    ensures Gender in errs ==> errs[Gender] == Required
    ensures Category in errs ==> errs[Category] == Required
    ensures Email in errs && errs[Email] == EmailTaken ==> editing.None?
  {
    var errs := Collect(UserFields, CheckOf(f, editing.None?, users));
    CollectedMessages(f, editing.None?, users);
    errs
  }

  ghost predicate FormValid(f: UserForm, editing: Option<Json>, users: seq<Json>) {
    && UserNameOk(f.name)
    && MatchesEmailPattern(Trim(f.email))
    && !(editing.None? && EmailInUse(users, ToLower(Trim(f.email))))
    && f.gender != "" && f.category != ""
  }

  /** `validate()` returns true exactly when every field rule holds. */
  lemma ValidateAcceptsExactlyValidForms(f: UserForm, editing: Option<Json>, users: seq<Json>)
    ensures |Validate(f, editing, users)| == 0 <==> FormValid(f, editing, users)
  {
    var errs := Validate(f, editing, users);
    if !FormValid(f, editing, users) {
      assert errs.Keys != {};
    }
  }

  /** With `a@x.com` already registered, creating ` A@X.com ` is refused as
      a duplicate, while editing a record with that email is accepted. */
  lemma DuplicateEmailScenario()
    ensures var users := [Obj(map["id" := Str("1"), "email" := Str("a@x.com")])];
            var f := UserForm("Ann Lee", " A@X.com ", "female", "admin");
            && Validate(f, None, users) == map[Email := EmailTaken]
            && Validate(f, Some(Str("1")), users) == map[]
  {
    var users := [Obj(map["id" := Str("1"), "email" := Str("a@x.com")])];
    var f := UserForm("Ann Lee", " A@X.com ", "female", "admin");
    ScenarioMessages();
    ErrorsFromMessages(f, None, users);
    ErrorsFromMessages(f, Some(Str("1")), users);
  }

  /** With the name, gender and category accepted, the error map holds
      the email's message and nothing else. */
  lemma ErrorsFromMessages(f: UserForm, editing: Option<Json>, users: seq<Json>)
    requires NameMessage(f.name).None? && f.gender != "" && f.category != ""
    ensures var email := EmailMessage(f.email, editing.None?, users);
            && (email.None? ==> Validate(f, editing, users) == map[])
            && (email.Some? ==> Validate(f, editing, users) == map[Email := email.value])
  {
    var check := CheckOf(f, editing.None?, users);
    assert Validate(f, editing, users) == Collect(UserFields, check);
    assert check(Name).None? && check(Gender).None? && check(Category).None?;
    assert check(Email) == EmailMessage(f.email, editing.None?, users);
    if check(Email).Some? {
      CollectOne(UserFields, check, Email);
    } else {
      CollectNone(UserFields, check);
    }
  }

  /** The registered email of the scenario above is in use. */
  lemma ScenarioInUse()
    ensures EmailInUse([Obj(map["id" := Str("1"), "email" := Str("a@x.com")])], "a@x.com")
  {
    var users := [Obj(map["id" := Str("1"), "email" := Str("a@x.com")])];
    assert Get(users[0], "email") == Some(Str("a@x.com"));
    assert ToLower("a@x.com") == "a@x.com";
  }

  lemma ScenarioMessages()
    ensures var users := [Obj(map["id" := Str("1"), "email" := Str("a@x.com")])];
            && NameMessage("Ann Lee") == None
            && EmailMessage(" A@X.com ", true, users) == Some(EmailTaken)
            && EmailMessage(" A@X.com ", false, users) == None
  {
    ScenarioName();
    ScenarioEmail();
    ScenarioInUse();
  }

  lemma ScenarioEmail()
    ensures Trim(" A@X.com ") == "A@X.com"
    ensures ToLower("A@X.com") == "a@x.com"
    ensures MatchesEmailPattern("A@X.com")
  {
    ScenarioTrim();
    ScenarioLower();
    ScenarioPattern();
  }

  lemma ScenarioTrim()
    ensures Trim(" A@X.com ") == "A@X.com"
  {
    var s := " A@X.com ";
    assert s[1..] == "A@X.com ";
    assert LeadingSpaces("A@X.com ") == 0;
    assert LeadingSpaces(s) == 1;
    assert "A@X.com "[..7] == "A@X.com";
    assert TrailingSpaces("A@X.com") == 0;
    assert TrailingSpaces("A@X.com ") == 1;
  }

  lemma ScenarioLower()
    ensures ToLower("A@X.com") == "a@x.com"
  {
  }

  lemma ScenarioPattern()
    ensures MatchesEmailPattern("A@X.com")
  {
    EmailShapeComplete("A@X.com", 1, 3);
    EmailShapeSound("A@X.com");
  }

  lemma ScenarioName()
    ensures UserNameOk("Ann Lee")
  {
    assert LeadingSpaces("Ann Lee") == 0;
    assert TrailingSpaces("Ann Lee") == 0;
  }

  // ----------------------------------------------------------------------
  // Save and delete

  /** `{ ...form }`: the form's four fields. A new user is POSTed with the
      same body, without a `createdAt`. */
  function Payload(f: UserForm): (p: Record)
    ensures p.Keys == {"name", "email", "gender", "category"}
    ensures p["name"] == Str(f.name) && p["email"] == Str(f.email)
    ensures p["gender"] == Str(f.gender) && p["category"] == Str(f.category)
  {
    map["name" := Str(f.name), "email" := Str(f.email), "gender" := Str(f.gender), "category" := Str(f.category)]
  }

  /** `handleSave` of the user dialog: nothing is sent for an invalid
      form, and a valid one is POSTed as it is, or written over the record
      found by the lookup. */
  function HandleSave(f: UserForm, editing: Option<Json>, users: seq<Json>, lookup: Crud.Reply, write: Crud.Reply): (e: Crud.Effects)
    ensures e.write.Some? ==> FormValid(f, editing, users)
    ensures !FormValid(f, editing, users) ==> e == Crud.Effects(None, None, Crud.Invalid)
    ensures FormValid(f, editing, users) ==> e == Crud.Save(true, editing, Payload(f), Payload(f), lookup, write)
  {
    ValidateAcceptsExactlyValidForms(f, editing, users);
    Crud.Save(|Validate(f, editing, users)| == 0, editing, Payload(f), Payload(f), lookup, write)
  }

  /** An edit whose lookup finds a record PUTs the form's fields over it,
      addressed by and keeping the found record's id. */
  lemma EditOverwritesFoundRecord(f: UserForm, editing: Option<Json>, users: seq<Json>, lookup: Crud.Reply, write: Crud.Reply)
    requires FormValid(f, editing, users) && editing.Some? && lookup.success
    requires |Crud.ListOf(lookup.data)| > 0 && Crud.ListOf(lookup.data)[0].Obj?
    requires "id" in Crud.ListOf(lookup.data)[0].fields
    ensures var found0 := Crud.ListOf(lookup.data)[0];
            var e := HandleSave(f, editing, users, lookup, write);
            && e.write.Some? && e.write.value.Put?
            && e.write.value.target == Some(found0.fields["id"])
            && e.write.value.body["id"] == found0.fields["id"]
            && e.write.value.body["email"] == Str(f.email)
            && (forall k :: k in found0.fields && k !in Payload(f) ==>
                  k in e.write.value.body && e.write.value.body[k] == found0.fields[k])
  {
  }

  /** `handleDelete(id)`. */
  function HandleDelete(id: Json, lookup: Crud.Reply, del: Crud.Reply): (e: Crud.Effects)
    ensures e.outcome == Crud.Succeeded <==>
              lookup.success && (Crud.ListOf(lookup.data) == [] ||
                                 (Crud.ListOf(lookup.data)[0] != Null && (del.success || del.status == 404)))
    ensures e.write.Some? ==>
              |Crud.ListOf(lookup.data)| > 0 && e.write == Some(Crud.Delete(Crud.IdOf(Crud.ListOf(lookup.data)[0])))
    ensures e.lookup == Some(id)
    ensures lookup.success && |Crud.ListOf(lookup.data)| > 0 && Crud.ListOf(lookup.data)[0] != Null ==>
              e.write == Some(Crud.Delete(Crud.IdOf(Crud.ListOf(lookup.data)[0])))
    ensures lookup.success && |Crud.ListOf(lookup.data)| > 0 && Crud.ListOf(lookup.data)[0] == Null ==>
              e.write.None? && e.outcome == Crud.Crashed
    ensures !lookup.success ==> e.write.None? && e.outcome == Crud.Failed(Crud.LookupStage, lookup.status)
  {
    Crud.Remove(id, lookup, del)
  }
}
