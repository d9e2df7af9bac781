/**
 * The registration popup of the login screen: the six entries are checked in
 * order (all filled, digits-only phone number, '@' in the email) and, when
 * they pass, a new user row is handed to insert_data.
 */
module Registration {
  import opened Wrappers
  import opened Validation
  import opened Dicts
  import opened Database
  import opened Users

  /** The six entry fields of the registration popup. */
  datatype Form = Form(firstName: string, lastName: string, username: string,
                       password: string, email: string, phoneNumber: string)

  datatype RegistrationError = MissingField | PhoneNotDigits | EmailWithoutAt

  function ErrorMessage(err: RegistrationError): string
  {
    match err
    case MissingField => "Please fill in all fields"
    case PhoneNotDigits => "Phone number must contain only digits"
    case EmailWithoutAt => "Your email address doesn't contain a @"
  }

  /** `all([first_name, last_name, username, password, email, phone_number])`. */
  predicate AllFilled(f: Form)
  {
    f.firstName != "" && f.lastName != "" && f.username != "" &&
    f.password != "" && f.email != "" && f.phoneNumber != ""
  }

  /** The pairs of the `data` display, in the order written, with 'username' given twice. */
  function RegistrationPairs(f: Form, now: int): seq<(string, Value)>
  {
    var user := NewProfile(f.firstName, f.lastName, f.username, f.password, f.email, f.phoneNumber, now);
    [("username", Str(f.username)), ("first_name", Str(f.firstName)), ("last_name", Str(f.lastName)),
     ("username", Str(f.username)), ("password", Str(f.password)), ("email", Str(f.email)),
     ("phone_number", Str(f.phoneNumber)), ("created_time", Time(user.createdTime)),
     ("last_update", Time(user.lastUpdate))]
  }

  /** The columns of the inserted row, in the order of the display. */
  const RegistrationColumns: seq<string> :=
    ["username", "first_name", "last_name", "password", "email", "phone_number", "created_time", "last_update"]

  /** The `data` dict handed to insert_data. */
  function RegistrationData(f: Form, now: int): Dict<string, Value>
  {
    FromPairs(RegistrationPairs(f, now))
  }

  /** The pairs without the repeated 'username'. */
  function DistinctPairs(f: Form, now: int): seq<(string, Value)>
  {
    [("username", Str(f.username)), ("first_name", Str(f.firstName)), ("last_name", Str(f.lastName)),
     ("password", Str(f.password)), ("email", Str(f.email)), ("phone_number", Str(f.phoneNumber)),
     ("created_time", Time(now)), ("last_update", Time(now))]
  }

  /** The pairs left name every column once. */
  lemma DistinctPairsKeys(f: Form, now: int)
    ensures KeysOf(DistinctPairs(f, now)) == RegistrationColumns
    ensures Distinct(RegistrationColumns)
  {
  }

  /** The repeated 'username' pair repeats the first one, so dropping it changes nothing. */
  lemma RepeatedUsernameIsHarmless(f: Form, now: int)
    ensures RegistrationData(f, now) == FromPairs(DistinctPairs(f, now))
  {
    var ps := RegistrationPairs(f, now);
    var a, b := ps[..3], ps[4..];
    assert ps == a + [ps[3]] + b && DistinctPairs(f, now) == a + b;
    assert |a| == 3 && a[..2] == [ps[0], ps[1]] && a[..2][..1] == [ps[0]];
    assert LastValue(a[..2][..1], "username") == Some(Str(f.username));
    assert LastValue(a[..2], "username") == Some(Str(f.username));
    assert LastValue(a, "username") == Some(Str(f.username));
    FromPairsRepeat(a, ps[3], b);
  }

  /**
   * The dict has eight keys, the repeated 'username' keeping its first place;
   * its values are the entries and the creation time twice.
   */
  lemma RegistrationDataShape(f: Form, now: int)
    ensures WellFormed(RegistrationData(f, now))
    ensures RegistrationData(f, now).keys == RegistrationColumns
    ensures Items(RegistrationData(f, now)) == DistinctPairs(f, now)
  {
    RepeatedUsernameIsHarmless(f, now);
    DistinctPairsKeys(f, now);
    FromPairsDistinct(DistinctPairs(f, now));
  }

  /**
   * save_registration: the first failing check decides the error; otherwise
   * the INSERT statement and value tuple for the new user row.
   */
  function SaveRegistration(f: Form, now: int): (r: Result<(string, seq<Value>), RegistrationError>)
    ensures r == Failure(MissingField) <==> !AllFilled(f)
    ensures r == Failure(PhoneNotDigits) <==> AllFilled(f) && !IsNumeric(f.phoneNumber)
    ensures r == Failure(EmailWithoutAt) <==> AllFilled(f) && IsNumeric(f.phoneNumber) && !HasAt(f.email)
    ensures r.Success? <==> AllFilled(f) && IsNumeric(f.phoneNumber) && HasAt(f.email)
    ensures r.Success? ==> WellFormed(RegistrationData(f, now)) && r.value == InsertData("user_table", RegistrationData(f, now))
  {
    if !AllFilled(f) then Failure(MissingField)
    else if !IsNumeric(f.phoneNumber) then Failure(PhoneNotDigits)
    else if !HasAt(f.email) then Failure(EmailWithoutAt)
    else
      RegistrationDataShape(f, now);
      Success(InsertData("user_table", RegistrationData(f, now)))
  }

  /**
   * A successful registration inserts the six entries as typed (none becomes
   * NULL, since all are filled) and the same creation time as created_time and
   * last_update.
   */
  lemma RegisteredRow(f: Form, now: int)
    requires SaveRegistration(f, now).Success?
    ensures SaveRegistration(f, now).value.1 ==
            [Str(f.username), Str(f.firstName), Str(f.lastName), Str(f.password),
             Str(f.email), Str(f.phoneNumber), Time(now), Time(now)]
  {
    assert AllFilled(f);
    RegistrationDataShape(f, now);
    FilledValues(f, now);
  }

  /** With every entry filled, no inserted value is NULL. */
  lemma FilledValues(f: Form, now: int)
    requires AllFilled(f)
    ensures InsertValues(DistinctPairs(f, now)) ==
            [Str(f.username), Str(f.firstName), Str(f.lastName), Str(f.password),
             Str(f.email), Str(f.phoneNumber), Time(now), Time(now)]
  {
    var pairs := DistinctPairs(f, now);
    forall i | 0 <= i < |pairs|
      ensures pairs[i].1 != Str("")
    {
    }
    InsertValuesKeepsFilled(pairs);
  }
}
