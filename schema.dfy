/**
  The user form schema as a whole (`z.object({ name, email, password })`) and the
  form resolver that turns its issues into one message per field. Every field is
  checked; a field's transform runs only when that field passed; the submit
  handler reaches `createUser` only with the transformed record.
*/
module Schema {
  import opened Text
  import opened NameField
  import opened EmailField
  import opened PasswordField

  datatype FieldKey = Name | Email | Password

  /** The form values as the inputs deliver them. */
  datatype RawInput = RawInput(name: string, email: string, password: string)

  /** The transformed record handed to `createUser`. */
  datatype UserRecord = UserRecord(name: string, email: string, password: string)

  /** One failed rule: the field it belongs to and the rule's message. */
  datatype Issue = Issue(path: FieldKey, message: string)

  /** What submitting the form gives: the record for `createUser`, one message per
      failing field, or the `TypeError` thrown by the name transform, which escapes
      validation instead of being reported as a message. */
  datatype Outcome = Success(record: UserRecord) | Failure(errors: map<FieldKey, string>) | Fault

  function Tag(key: FieldKey, msgs: seq<string>): (issues: seq<Issue>)
    ensures |issues| == |msgs|
    ensures forall i :: 0 <= i < |msgs| ==> issues[i] == Issue(key, msgs[i])
  {
    seq(|msgs|, i requires 0 <= i < |msgs| => Issue(key, msgs[i]))
  }

  /** The issues of all three fields, in the order the fields and their rules are
      declared: there is none exactly when no field fails. */
  function Issues(raw: RawInput): (issues: seq<Issue>)
    ensures issues == [] <==> !NameFails(raw) && !EmailFails(raw) && !PasswordFails(raw)
  {
    Tag(Name, NameIssues(raw.name))
    + Tag(Email, EmailIssues(raw.email))
    + Tag(Password, PasswordIssues(raw.password))
  }

  /** The resolver keeps, for each field, the message of its first issue: the map
      has an entry for every field some issue belongs to, and for no other. */
  function FirstErrors(issues: seq<Issue>): (m: map<FieldKey, string>)
    ensures m.Keys == set i | 0 <= i < |issues| :: issues[i].path
    ensures issues != [] ==> m[issues[0].path] == issues[0].message
  {
    if issues == [] then map[]
    else FirstErrors(issues[1..])[issues[0].path := issues[0].message]
  }

  /** Validates the raw form values against the schema. A failure always carries
      a message, and `createUser` receives the email lower-cased and the password
      as typed, only when no rule failed. */
  function Validate(raw: RawInput): (r: Outcome)
    ensures r.Fault? ==> raw.name != [] && TransformName(raw.name).TypeError?
    ensures r.Failure? ==> Issues(raw) != [] && r.errors != map[]
    ensures r.Success? ==> Issues(raw) == [] && r.record.email == LowerStr(raw.email)
                           && r.record.password == raw.password
  {
    if NameIssues(raw.name) == [] && TransformName(raw.name).TypeError? then Fault
    else if Issues(raw) != [] then Failure(FirstErrors(Issues(raw)))
    else Success(UserRecord(TransformName(raw.name).name, LowerStr(raw.email), raw.password))
  }

  // ---------------------------------------------------------------------------
  // reference predicates: when a field fails

  predicate NameFails(raw: RawInput) { raw.name == [] }
  predicate EmailFails(raw: RawInput) { !IsEmailShape(raw.email) }
  predicate PasswordFails(raw: RawInput) { Utf16Length(raw.password) < MinLength }

  /** The name passes its rule and its transform then throws. */
  predicate NameThrows(raw: RawInput) { raw.name != [] && HasEmptyWord(Trim(raw.name)) }

  // ---------------------------------------------------------------------------
  // properties

  /** A field is in the resolver's map exactly when some issue belongs to it, and
      its message is that of the field's first issue. */
  lemma {:induction false} FirstErrorsSpec(issues: seq<Issue>, k: FieldKey)
    ensures k in FirstErrors(issues) <==> exists i :: 0 <= i < |issues| && issues[i].path == k
    ensures forall i :: 0 <= i < |issues| && issues[i].path == k
                     && (forall j :: 0 <= j < i ==> issues[j].path != k)
                     ==> FirstErrors(issues)[k] == issues[i].message
  {
    if issues != [] {
      var rest := issues[1..];
      FirstErrorsSpec(rest, k);
      if exists i :: 0 <= i < |rest| && rest[i].path == k {
        var i :| 0 <= i < |rest| && rest[i].path == k;
        assert issues[i + 1].path == k;
      }
      forall i | 0 <= i < |issues| && issues[i].path == k
        && (forall j :: 0 <= j < i ==> issues[j].path != k)
        ensures FirstErrors(issues)[k] == issues[i].message
      {
        if i > 0 {
          assert issues[0].path != k;
          assert rest[i - 1] == issues[i];
          forall j | 0 <= j < i - 1 ensures rest[j].path != k {
            assert rest[j] == issues[j + 1];
          }
        }
      }
    }
  }

  /** The resolver's map for the issues of a field followed by later issues of
      other fields. */
  lemma {:induction false} FirstErrorsTag(key: FieldKey, msgs: seq<string>, later: seq<Issue>)
    requires forall i :: 0 <= i < |later| ==> later[i].path != key
    ensures var m := FirstErrors(Tag(key, msgs) + later);
      (key in m <==> msgs != [])
      && (msgs != [] ==> m[key] == msgs[0])
      && forall k :: k != key ==>
           (k in m <==> k in FirstErrors(later)) && (k in m ==> m[k] == FirstErrors(later)[k])
  {
    var issues := Tag(key, msgs) + later;
    FirstErrorsSpec(issues, key);
    if msgs != [] {
      assert issues[0] == Issue(key, msgs[0]);
    } else {
      assert issues == later;
    }
    forall k | k != key
      ensures var m := FirstErrors(issues);
        (k in m <==> k in FirstErrors(later)) && (k in m ==> m[k] == FirstErrors(later)[k])
    {
      FirstErrorsSkip(Tag(key, msgs), later, k);
    }
  }

  /** Issues that do not belong to a field do not change its entry. */
  lemma {:induction false} FirstErrorsSkip(prefix: seq<Issue>, later: seq<Issue>, k: FieldKey)
    requires forall i :: 0 <= i < |prefix| ==> prefix[i].path != k
    ensures var m, n := FirstErrors(prefix + later), FirstErrors(later);
      (k in m <==> k in n) && (k in m ==> m[k] == n[k])
  {
    if prefix != [] {
      assert (prefix + later)[1..] == prefix[1..] + later;
      FirstErrorsSkip(prefix[1..], later, k);
    } else {
      assert prefix + later == later;
    }
  }

  /** Every field is checked, and the failure map holds exactly the failing fields,
      each with the message of its first failing rule. */
  lemma {:induction false} ValidateErrors(raw: RawInput)
    requires Validate(raw).Failure?
    ensures var m := Validate(raw).errors;
      (Name in m <==> NameFails(raw))
      && (Email in m <==> EmailFails(raw))
      && (Password in m <==> PasswordFails(raw))
      && (Name in m ==> m[Name] == NameField.RequiredMessage)
      && (Email in m ==> m[Email] == if raw.email == [] then EmailField.RequiredMessage else FormatMessage)
      && (Password in m ==> m[Password] == TooShortMessage)
  {
    assert Validate(raw).errors == FirstErrors(Issues(raw));
    IssuesErrors(raw);
  }

  /** The resolver's map of all the issues, field by field. */
  lemma {:induction false} IssuesErrors(raw: RawInput)
    ensures var m := FirstErrors(Issues(raw));
      (Name in m <==> NameFails(raw))
      && (Email in m <==> EmailFails(raw))
      && (Password in m <==> PasswordFails(raw))
      && (Name in m ==> m[Name] == NameField.RequiredMessage)
      && (Email in m ==> m[Email] == if raw.email == [] then EmailField.RequiredMessage else FormatMessage)
      && (Password in m ==> m[Password] == TooShortMessage)
  {
    var nm, em, pm := NameIssues(raw.name), EmailIssues(raw.email), PasswordIssues(raw.password);
    ThreeFieldErrors(nm, em, pm);
    assert Issues(raw) == Tag(Name, nm) + (Tag(Email, em) + Tag(Password, pm));
    assert em != [] ==> em[0] == if raw.email == [] then EmailField.RequiredMessage else FormatMessage;
  }

  /** The resolver's map for the messages of the three fields, in field order. */
  lemma {:induction false} ThreeFieldErrors(nm: seq<string>, em: seq<string>, pm: seq<string>)
    ensures var m := FirstErrors(Tag(Name, nm) + (Tag(Email, em) + Tag(Password, pm)));
      (Name in m <==> nm != []) && (Email in m <==> em != []) && (Password in m <==> pm != [])
      && (nm != [] ==> m[Name] == nm[0])
      && (em != [] ==> m[Email] == em[0])
      && (pm != [] ==> m[Password] == pm[0])
  {
    var p, e, n := Tag(Password, pm), Tag(Email, em), Tag(Name, nm);
    FirstErrorsTag(Password, pm, []);
    assert p + [] == p;
    FirstErrorsTag(Email, em, p);
    FirstErrorsTag(Name, nm, e + p);
  }

  /** Which of the three outcomes a submission has: the transform's throw comes
      first, then any failing field, and `createUser` is reached only when no field
      fails; it then receives the capitalised trimmed name, the lower-cased email
      and the password as typed. */
  lemma {:induction false} ValidateOutcome(raw: RawInput)
    ensures Validate(raw).Fault? <==> NameThrows(raw)
    ensures Validate(raw).Failure? <==>
      !NameThrows(raw) && (NameFails(raw) || EmailFails(raw) || PasswordFails(raw))
    ensures Validate(raw).Success? <==>
      !NameThrows(raw) && !NameFails(raw) && !EmailFails(raw) && !PasswordFails(raw)
    ensures Validate(raw).Success? ==>
              Validate(raw).record == UserRecord(Capitalised(Trim(raw.name)), LowerStr(raw.email), raw.password)
  {
    NameThrowsSpec(raw);
    if NameThrows(raw) {
      assert Validate(raw) == Fault;
    } else if Issues(raw) != [] {
      assert Validate(raw) == Failure(FirstErrors(Issues(raw)));
    } else {
      assert Validate(raw) == Success(UserRecord(TransformName(raw.name).name, LowerStr(raw.email), raw.password));
    }
  }

  /** The transform throws after the name passed its rule exactly when the name
      throws; otherwise it gives the capitalised trimmed name. */
  lemma NameThrowsSpec(raw: RawInput)
    ensures NameThrows(raw) <==> NameIssues(raw.name) == [] && TransformName(raw.name).TypeError?
    ensures !HasEmptyWord(Trim(raw.name)) ==> TransformName(raw.name) == Value(Capitalised(Trim(raw.name)))
  {
    TransformNameSpec(raw.name);
  }

  /** The record `createUser` receives is a fixed point: submitting it again
      succeeds with the same record. */
  lemma {:induction false} ValidateIdempotent(raw: RawInput)
    requires Validate(raw).Success?
    ensures var r := Validate(raw).record;
      Validate(RawInput(r.name, r.email, r.password)) == Success(r)
  {
    ValidateOutcome(raw);
    var r := Validate(raw).record;
    var again := RawInput(r.name, r.email, r.password);
    TransformNameIdempotent(raw.name);
    LoweredEmailStaysValid(raw.email);
    TransformNameShape(raw.name);
    ValidateOutcome(again);
    TransformNameSpec(r.name);
  }

  /** Nothing typed: every field reports its first rule's message, the email only
      "E-mail obrigatório!" although its format rule fails too. */
  lemma EmptyFormExample(raw: RawInput)
    requires raw.name == [] && raw.email == [] && raw.password == []
    ensures Validate(raw) == Failure(map[
      Name := NameField.RequiredMessage,
      Email := EmailField.RequiredMessage,
      Password := TooShortMessage])
  {
    ValidateOutcome(raw);
    ValidateErrors(raw);
  }

  /** A white-space-only name makes the transform throw even when other fields fail. */
  lemma BlankNameExample(name: string, email: string, password: string)
    requires name == "  " && email == "" && password == "1"
    ensures Validate(RawInput(name, email, password)) == Fault
  {
    assert AllWs(name);
    BlankNameThrows(name);
  }

  /** A short password is the only failure; the name and email report nothing. */
  lemma ShortPasswordExample(name: string, email: string, password: string)
    requires name == "maria silva" && email == "M@X.COM" && password == "12345"
    ensures Validate(RawInput(name, email, password)) == Failure(map[Password := TooShortMessage])
  {
    var raw := RawInput(name, email, password);
    ShortPasswordFields(name, email, password);
    ValidateOutcome(raw);
    ValidateErrors(raw);
    var m := Validate(raw).errors;
    assert Name !in m && Email !in m && Password in m;
    OnlyPassword(m);
  }

  lemma OnlyPassword(m: map<FieldKey, string>)
    requires Name !in m && Email !in m && Password in m
    ensures m == map[Password := m[Password]]
  {
    forall k | k in m ensures k == Password {
      match k
      case Name =>
      case Email =>
      case Password =>
    }
    assert m.Keys == {Password};
  }

  /** How each field of the short-password submission fares. */
  lemma ShortPasswordFields(name: string, email: string, password: string)
    requires name == "maria silva" && email == "M@X.COM" && password == "12345"
    ensures var raw := RawInput(name, email, password);
      !NameThrows(raw) && !NameFails(raw) && !EmailFails(raw) && PasswordFails(raw)
  {
    assert forall i :: 0 <= i < |password| ==> password[i] as int < 0x1_0000;
    TwoWordNameExample(name);
    UpperCaseEmailExample(email);
  }

  /** "maria silva" passes the name rule and its transform does not throw. */
  lemma TwoWordNameExample(t: string)
    requires t == "maria silva"
    ensures t != [] && !HasEmptyWord(Trim(t))
  {
    forall i | 0 <= i < |t| - 1 ensures !(t[i] == ' ' && t[i + 1] == ' ') {
      assert t[i] == ' ' ==> i == 5;
    }
    TrimFixed(t);
  }

  lemma UpperCaseEmailExample(s: string)
    requires s == "M@X.COM"
    ensures IsEmailShape(s)
  {
    ShapeIgnoresCase(s);
    assert LowerStr(s) == "m@x.com";
    LowerCaseEmailExample(LowerStr(s));
  }

  lemma LowerCaseEmailExample(s: string)
    requires s == "m@x.com"
    ensures IsEmailShape(s)
  {
    var local := s[..1];
    assert local == "m" && s == local + "@x.com";
    XComAddress(local, s);
  }

  /** A valid submission reaches `createUser` with the capitalised name. */
  lemma SuccessExample(name: string, email: string, password: string)
    requires name == "ana" && email == "ana@x.com" && password == "123456"
    ensures Validate(RawInput(name, email, password)) == Success(UserRecord("Ana", email, password))
  {
    AnaNameExample(name);
    SuccessFields(email, password);
    Succeeds(RawInput(name, email, password), "Ana");
  }

  /** A submission where every field passes reaches `createUser` with the
      capitalised name and the email and password as they are. */
  lemma Succeeds(raw: RawInput, name: string)
    requires !NameThrows(raw) && !NameFails(raw) && !EmailFails(raw) && !PasswordFails(raw)
    requires Capitalised(Trim(raw.name)) == name && LowerStr(raw.email) == raw.email
    ensures Validate(raw) == Success(UserRecord(name, raw.email, raw.password))
  {
    ValidateOutcome(raw);
  }

  /** The email and the password of the valid submission pass, and the email is
      already lower-case. */
  lemma SuccessFields(email: string, password: string)
    requires email == "ana@x.com" && password == "123456"
    ensures IsEmailShape(email) && Utf16Length(password) >= MinLength && LowerStr(email) == email
  {
    LengthBounds(password);
    WellFormedExample(email);
    LowerCaseKeptExample();
  }

  lemma AnaNameExample(t: string)
    requires t == "ana"
    ensures Trim(t) == t && !HasEmptyWord(t) && Capitalised(t) == "Ana"
  {
    assert ' ' !in t;
    TrimFixed(t);
    CapitalisedWord(t);
    assert CapitaliseWord(t) == "Ana";
  }

  lemma LowerCaseKeptExample()
    ensures LowerStr("ana@x.com") == "ana@x.com"
  {
    var s := "ana@x.com";
    forall i | 0 <= i < |s| ensures Lower(s[i]) == s[i] {
      assert !IsAsciiUpper(s[i]) && !IsLatin1Upper(s[i]);
    }
  }
}
