/**
 * The User record of user.py: the profile of a habit tracker user, created
 * at registration and changed by update_profile.
 */
module Users {
  import opened Wrappers

  /** A user's stored profile; email is None after the update described under PhoneUpdateOverwritesEmail. */
  datatype Profile = Profile(
    firstName: string,
    lastName: string,
    username: string,
    password: string,
    email: Option<string>,
    phoneNumber: string,
    createdTime: int,
    lastUpdate: int)

  /** The keyword arguments of update_profile; None is the default. */
  datatype ProfileUpdate = ProfileUpdate(
    newFirstName: Option<string>,
    newLastName: Option<string>,
    newUsername: Option<string>,
    newPassword: Option<string>,
    newEmail: Option<string>,
    newPhoneNumber: Option<string>)

  /** Python truthiness of an optional string: neither None nor ''. */
  predicate Truthy(o: Option<string>)
  {
    o.Some? && o.value != ""
  }

  /** The new value if one was given, otherwise the current one. */
  function Pick(o: Option<string>, current: string): string
  {
    if Truthy(o) then o.value else current
  }

  /** A freshly constructed User: the arguments as given, created and last updated at `now`. */
  function NewProfile(firstName: string, lastName: string, username: string, password: string,
                      email: string, phoneNumber: string, now: int): (p: Profile)
    ensures p.firstName == firstName && p.lastName == lastName
    ensures p.username == username && p.password == password
    ensures p.email == Some(email) && p.phoneNumber == phoneNumber
    ensures p.createdTime == now && p.lastUpdate == p.createdTime
  {
    Profile(firstName, lastName, username, password, Some(email), phoneNumber, now, now)
  }

  /**
   * update_profile as written: a truthy new phone number assigns the new
   * email (possibly None) and the phone number never changes.
   */
  function ProfileAfterUpdate(p: Profile, u: ProfileUpdate, now: int): (q: Profile)
    ensures q.firstName == Pick(u.newFirstName, p.firstName)
    ensures q.lastName == Pick(u.newLastName, p.lastName)
    ensures q.username == Pick(u.newUsername, p.username)
    ensures q.password == Pick(u.newPassword, p.password)
    ensures q.email == (if Truthy(u.newEmail) || Truthy(u.newPhoneNumber) then u.newEmail else p.email)
    ensures q.phoneNumber == p.phoneNumber
    ensures q.createdTime == p.createdTime && q.lastUpdate == now
  {
    Profile(Pick(u.newFirstName, p.firstName), Pick(u.newLastName, p.lastName),
            Pick(u.newUsername, p.username), Pick(u.newPassword, p.password),
            if Truthy(u.newPhoneNumber) then u.newEmail else if Truthy(u.newEmail) then u.newEmail else p.email,
            p.phoneNumber, p.createdTime, now)
  }

  /** update_profile as intended: a truthy new phone number replaces the phone number. */
  function IntendedProfileAfterUpdate(p: Profile, u: ProfileUpdate, now: int): (q: Profile)
    ensures q.email == (if Truthy(u.newEmail) then u.newEmail else p.email)
    ensures q.phoneNumber == Pick(u.newPhoneNumber, p.phoneNumber)
    ensures q.createdTime == p.createdTime && q.lastUpdate == now
  {
    Profile(Pick(u.newFirstName, p.firstName), Pick(u.newLastName, p.lastName),
            Pick(u.newUsername, p.username), Pick(u.newPassword, p.password),
            if Truthy(u.newEmail) then u.newEmail else p.email,
            Pick(u.newPhoneNumber, p.phoneNumber),
            p.createdTime, now)
  }

  /** Changing only the phone number erases the email and keeps the old number. */
  lemma PhoneUpdateOverwritesEmail()
    ensures var p := NewProfile("Marc", "Fischer", "sippenpit", "Hecht123", "Fischer@gmx.de", "08971234567", 0);
            var q := ProfileAfterUpdate(p, ProfileUpdate(None, None, None, None, None, Some("0123")), 1);
            q.email == None && q.phoneNumber == "08971234567" && p.email != None
  {
  }

  /** The intended update sets the number and keeps the email; without a new number both agree. */
  lemma {:induction false} IntendedUpdateSetsPhone(p: Profile, u: ProfileUpdate, now: int)
    ensures Truthy(u.newPhoneNumber) ==>
              IntendedProfileAfterUpdate(p, u, now).phoneNumber == u.newPhoneNumber.value &&
              (!Truthy(u.newEmail) ==> IntendedProfileAfterUpdate(p, u, now).email == p.email)
    ensures !Truthy(u.newPhoneNumber) ==> IntendedProfileAfterUpdate(p, u, now) == ProfileAfterUpdate(p, u, now)
  {
  }

  /** A User object; its fields are reassigned in place by UpdateProfile. */
  class User {
    var firstName: string
    var lastName: string
    var username: string
    var password: string
    var email: Option<string>
    var phoneNumber: string
    var createdTime: int
    var lastUpdate: int

    function AsProfile(): Profile
      reads this
    {
      Profile(firstName, lastName, username, password, email, phoneNumber, createdTime, lastUpdate)
    }

    constructor (firstName: string, lastName: string, username: string, password: string,
                 email: string, phoneNumber: string, now: int)
      ensures AsProfile() == NewProfile(firstName, lastName, username, password, email, phoneNumber, now)
    {
      this.firstName := firstName;
      this.lastName := lastName;
      this.username := username;
      this.password := password;
      this.email := Some(email);
      this.phoneNumber := phoneNumber;
      this.createdTime := now;
      this.lastUpdate := now;
    }

    method UpdateProfile(newFirstName: Option<string>, newLastName: Option<string>, newUsername: Option<string>,
                         newPassword: Option<string>, newEmail: Option<string>, newPhoneNumber: Option<string>,
                         now: int)
      modifies this
      ensures AsProfile() ==
              ProfileAfterUpdate(old(AsProfile()),
                                 ProfileUpdate(newFirstName, newLastName, newUsername, newPassword, newEmail, newPhoneNumber),
                                 now)
    {
      firstName := Pick(newFirstName, firstName);
      lastName := Pick(newLastName, lastName);
      username := Pick(newUsername, username);
      password := Pick(newPassword, password);
      if Truthy(newEmail) {
        email := newEmail;
      }
      // The phone number branch assigns the email, not the phone number.
      if Truthy(newPhoneNumber) {
        email := newEmail;
      }
      lastUpdate := now;
    }
  }
}
