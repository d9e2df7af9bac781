/**
 * Saving the profile editor's entries (save_profile_changes in
 * main_screen.py): validate the phone number and email, merge every non-empty
 * entry into the user's credentials dictionary, stamp last_update and build
 * the UPDATE statement for user_table.
 */
module ProfileChanges {
  import opened Wrappers
  import opened Validation
  import opened Dicts
  import opened Database
  import opened Users

  /** The six entry fields of the profile editor, as typed (possibly empty). */
  datatype Entries = Entries(
    firstName: string,
    lastName: string,
    username: string,
    password: string,
    email: string,
    phoneNumber: string)

  datatype ProfileChangeError = PhoneNotDigits | InvalidEmail

  function ErrorMessage(e: ProfileChangeError): string
  {
    match e
    case PhoneNotDigits => "Phone number must contain only digits"
    case InvalidEmail => "Invalid email address"
  }

  /** The user's credentials as get_user_credentials returns them. */
  type Credentials = Dict<Column, Value>

  /** The text str() makes of a stored value; a timestamp is written as its number of seconds. */
  function Render(v: Value): string
  {
    match v
    case Null => "None"
    case Str(s) => s
    case Int(i) => IntToString(i)
    case Time(t) => IntToString(t)
  }

  /** The credentials as column-name and text pairs, in key order. */
  function Rendered(d: Credentials): (r: seq<(string, string)>)
    requires Listed(d)
    ensures |r| == |d.keys|
    ensures forall i :: 0 <= i < |r| ==> r[i] == (ColumnName(d.keys[i]), Render(d.entries[d.keys[i]]))
  {
    var items := Items(d);
    seq(|items|, i requires 0 <= i < |items| => (ColumnName(items[i].0), Render(items[i].1)))
  }

  /** `if entry: d[column] = entry`. */
  function SetIfGiven(d: Credentials, column: Column, entry: string): (r: Credentials)
    ensures Lookup(r, column) == if entry != "" then Some(Str(entry)) else Lookup(d, column)
    ensures forall c :: c != column ==> Lookup(r, c) == Lookup(d, c)
    ensures r.keys == if entry != "" && column !in d.entries then d.keys + [column] else d.keys
  {
    if entry != "" then Set(d, column, Str(entry)) else d
  }

  /** The editor's fields with their columns, in the order the merge visits them. */
  function EntryFields(e: Entries): seq<(Column, string)>
  {
    [(FirstName, e.firstName), (LastName, e.lastName), (Username, e.username),
     (Password, e.password), (Email, e.email), (PhoneNumber, e.phoneNumber)]
  }

  /** The `if entry: d[column] = entry` statements for the fields, in order. */
  function MergeFields(d: Credentials, fields: seq<(Column, string)>): Credentials
  {
    if fields == [] then d
    else SetIfGiven(MergeFields(d, fields[..|fields| - 1]), fields[|fields| - 1].0, fields[|fields| - 1].1)
  }

  /** The text that ends up in a column: the last non-empty entry for it, or "" when there is none. */
  function Typed(fields: seq<(Column, string)>, c: Column): string
  {
    if fields == [] then ""
    else if fields[|fields| - 1].0 == c && fields[|fields| - 1].1 != "" then fields[|fields| - 1].1
    else Typed(fields[..|fields| - 1], c)
  }

  /** A column holds the text typed for it if any, and otherwise keeps its value. */
  lemma {:induction false} MergeFieldsLookup(d: Credentials, fields: seq<(Column, string)>, c: Column)
    ensures Lookup(MergeFields(d, fields), c) == if Typed(fields, c) != "" then Some(Str(Typed(fields, c))) else Lookup(d, c)
  {
    if fields != [] {
      MergeFieldsLookup(d, fields[..|fields| - 1], c);
    }
  }

  /** Merging into a dict that has every field's column keeps its keys, in order. */
  lemma {:induction false} MergeFieldsKeys(d: Credentials, fields: seq<(Column, string)>)
    requires forall i :: 0 <= i < |fields| ==> fields[i].0 in d.entries
    ensures MergeFields(d, fields).keys == d.keys
  {
    if fields != [] {
      var prefix := fields[..|fields| - 1];
      MergeFieldsKeys(d, prefix);
      MergeFieldsLookup(d, prefix, fields[|fields| - 1].0);
    }
  }

  lemma {:induction false} MergeFieldsWellFormed(d: Credentials, fields: seq<(Column, string)>)
    requires WellFormed(d)
    ensures WellFormed(MergeFields(d, fields))
  {
    if fields != [] {
      var prefix := fields[..|fields| - 1];
      MergeFieldsWellFormed(d, prefix);
      SetWellFormed(MergeFields(d, prefix), fields[|fields| - 1].0, Str(fields[|fields| - 1].1));
    }
  }

  /** The entry typed for a column; the columns without an entry field get none. */
  function EntryFor(e: Entries, c: Column): string
  {
    match c
    case FirstName => e.firstName
    case LastName => e.lastName
    case Username => e.username
    case Password => e.password
    case Email => e.email
    case PhoneNumber => e.phoneNumber
    case _ => ""
  }

  /** Over the editor's fields, the text typed for a column is that column's entry. */
  lemma TypedEntry(e: Entries, c: Column)
    ensures Typed(EntryFields(e), c) == EntryFor(e, c)
  {
    var f := EntryFields(e);
    var f1, f2, f3, f4, f5 := f[..1], f[..2], f[..3], f[..4], f[..5];
    assert f1[..0] == [] && f2[..1] == f1 && f3[..2] == f2 && f4[..3] == f3 && f5[..4] == f4 && f[..5] == f5;
    assert Typed(f1, c) == if c == FirstName then e.firstName else "";
    assert Typed(f2, c) == if c == LastName && e.lastName != "" then e.lastName else Typed(f1, c);
    assert Typed(f3, c) == if c == Username && e.username != "" then e.username else Typed(f2, c);
    assert Typed(f4, c) == if c == Password && e.password != "" then e.password else Typed(f3, c);
    assert Typed(f5, c) == if c == Email && e.email != "" then e.email else Typed(f4, c);
  }

  /** The credentials after the merge of the entries and the new last_update. */
  function Merged(d: Credentials, e: Entries, now: int): Credentials
  {
    Set(MergeFields(d, EntryFields(e)), LastUpdate, Time(now))
  }

  /**
   * After the merge, last_update holds now, every column with a non-empty
   * entry holds that entry, and every other column keeps its value.
   */
  lemma MergedColumns(d: Credentials, e: Entries, now: int)
    ensures forall c :: Lookup(Merged(d, e, now), c) ==
              if c == LastUpdate then Some(Time(now))
              else if EntryFor(e, c) != "" then Some(Str(EntryFor(e, c)))
              else Lookup(d, c)
  {
    forall c
      ensures Lookup(Merged(d, e, now), c) ==
              if c == LastUpdate then Some(Time(now))
              else if EntryFor(e, c) != "" then Some(Str(EntryFor(e, c)))
              else Lookup(d, c)
    {
      SetLookup(MergeFields(d, EntryFields(e)), LastUpdate, Time(now));
      MergeFieldsLookup(d, EntryFields(e), c);
      TypedEntry(e, c);
    }
  }

  /** Merging keeps a well-formed dict well formed. */
  lemma MergedWellFormed(d: Credentials, e: Entries, now: int)
    requires WellFormed(d)
    ensures WellFormed(Merged(d, e, now))
  {
    MergeFieldsWellFormed(d, EntryFields(e));
    SetWellFormed(MergeFields(d, EntryFields(e)), LastUpdate, Time(now));
  }

  /**
   * save_profile_changes: a non-empty phone number must be all digits, then a
   * non-empty email must contain '@'; on success the merged credentials and
   * the statement that writes them back under the user's id.
   */
  function SaveProfileChanges(d: Credentials, e: Entries, userId: int, now: int): (r: Result<(Credentials, string), ProfileChangeError>)
    requires WellFormed(d)
    ensures r == Failure(PhoneNotDigits) <==> e.phoneNumber != "" && !IsNumeric(e.phoneNumber)
    ensures r == Failure(InvalidEmail) <==>
              !(e.phoneNumber != "" && !IsNumeric(e.phoneNumber)) && e.email != "" && !HasAt(e.email)
    ensures r.Success? ==> r.value.0 == Merged(d, e, now)
    ensures r.Success? ==> WellFormed(r.value.0) && r.value.1 == UpdateData("user_table", Rendered(r.value.0), "user", userId)
  {
    if e.phoneNumber != "" && !IsNumeric(e.phoneNumber) then Failure(PhoneNotDigits)
    else if e.email != "" && !HasAt(e.email) then Failure(InvalidEmail)
    else
      var m := Merged(d, e, now);
      MergedWellFormed(d, e, now);
      Success((m, UpdateData("user_table", Rendered(m), "user", userId)))
  }

  /** The credentials dictionary get_user_credentials returns for a stored profile. */
  function ProfileDict(userId: int, p: Profile): (d: Credentials)
    ensures WellFormed(d) && d.keys == UserColumns
  {
    UserColumnsDistinct();
    Dict(UserColumns,
         map[UserId := Int(userId), Username := Str(p.username), FirstName := Str(p.firstName),
             LastName := Str(p.lastName), Password := Str(p.password),
             Email := (if p.email.Some? then Str(p.email.value) else Null),
             PhoneNumber := Str(p.phoneNumber), CreatedTime := Time(p.createdTime),
             LastUpdate := Time(p.lastUpdate)])
  }

  /** The entries as update_profile arguments. */
  function EntriesUpdate(e: Entries): ProfileUpdate
  {
    ProfileUpdate(Some(e.firstName), Some(e.lastName), Some(e.username), Some(e.password), Some(e.email), Some(e.phoneNumber))
  }

  /** The value a stored profile's dictionary holds in a column. */
  function ProfileValue(userId: int, p: Profile, c: Column): Value
  {
    match c
    case UserId => Int(userId)
    case Username => Str(p.username)
    case FirstName => Str(p.firstName)
    case LastName => Str(p.lastName)
    case Password => Str(p.password)
    case Email => if p.email.Some? then Str(p.email.value) else Null
    case PhoneNumber => Str(p.phoneNumber)
    case CreatedTime => Time(p.createdTime)
    case LastUpdate => Time(p.lastUpdate)
  }

  lemma ProfileDictLookup(userId: int, p: Profile, c: Column)
    ensures Lookup(ProfileDict(userId, p), c) == Some(ProfileValue(userId, p, c))
  {
  }

  /** One column of SavedChangesFollowIntendedUpdate. */
  lemma MergedProfileColumn(userId: int, p: Profile, e: Entries, now: int, c: Column)
    ensures Lookup(Merged(ProfileDict(userId, p), e, now), c) ==
            Lookup(ProfileDict(userId, IntendedProfileAfterUpdate(p, EntriesUpdate(e), now)), c)
  {
    MergedColumns(ProfileDict(userId, p), e, now);
    ProfileDictLookup(userId, p, c);
    ProfileDictLookup(userId, IntendedProfileAfterUpdate(p, EntriesUpdate(e), now), c);
  }

  /** Merging into a stored profile's dictionary gives the dictionary of the intended update_profile result. */
  lemma SavedChangesFollowIntendedUpdate(userId: int, p: Profile, e: Entries, now: int)
    ensures Merged(ProfileDict(userId, p), e, now) ==
            ProfileDict(userId, IntendedProfileAfterUpdate(p, EntriesUpdate(e), now))
  {
    var d := ProfileDict(userId, p);
    var m := Merged(d, e, now);
    var p' := IntendedProfileAfterUpdate(p, EntriesUpdate(e), now);
    var q := ProfileDict(userId, p');
    MergeFieldsKeys(d, EntryFields(e));
    MergeFieldsLookup(d, EntryFields(e), LastUpdate);
    ProfileDictLookup(userId, p, LastUpdate);
    assert LastUpdate in MergeFields(d, EntryFields(e)).entries;
    assert m.keys == UserColumns == q.keys;
    forall c
      ensures Lookup(m, c) == Lookup(q, c)
    {
      MergedProfileColumn(userId, p, e, now, c);
    }
    LookupExtensionality(m, q);
  }
}
