/** One contact: a fixed name, an ordered list of phone values and at most
    one birthday, changed in place by its methods. */
module Records {
  import opened Base
  import opened Calendar
  import opened Fields
  import opened Sequences

  /** The value a record holds at one moment. */
  datatype Contact = Contact(name: string, phones: seq<string>, birthday: Option<CalendarDate>)

  class Record {
    const name: string
    /** The values of the record's Phone objects, in insertion order. */
    var phones: seq<string>
    var birthday: Option<CalendarDate>

    function View(): Contact
      reads this
    {
      Contact(name, phones, birthday)
    }

    /** A record starts with its name only. */
    constructor (name: string)
      ensures this.name == name && phones == [] && birthday == None
    {
      this.name := name;
      phones := [];
      birthday := None;
    }

    /** `find_phone`: the position of the first phone with this value, None
        when there is none. */
    method FindPhone(phone: string) returns (r: Option<nat>)
      ensures r.Some? <==> phone in phones
      ensures r.Some? ==> r.value < |phones| && phones[r.value] == phone && phone !in phones[..r.value]
    {
      var i := 0;
      while i < |phones|
        invariant 0 <= i <= |phones|
        invariant phone !in phones[..i]
      {
        if phones[i] == phone {
          return Some(i);
        }
        i := i + 1;
      }
      assert phones[..i] == phones;
      return None;
    }

    /** `add_phone`: a value already present is refused first, then a value
        that is not ten digits; otherwise it is appended. A duplicate-free
        list stays duplicate-free. */
    method AddPhone(phone: string) returns (r: Outcome)
      modifies this
      ensures r == if phone in old(phones) then Fail(DuplicatePhone)
                   else if !IsPhoneText(phone) then Fail(InvalidPhone)
                   else Pass
      ensures phones == if r.Pass? then old(phones) + [phone] else old(phones)
      ensures birthday == old(birthday)
      ensures Distinct(old(phones)) ==> Distinct(phones)
    {
      if phone in phones {
        return Fail(DuplicatePhone);
      }
      match NewPhone(phone)
      case Failure(e) =>
        return Fail(e);
      case Success(p) =>
        phones := phones + [p];
        return Pass;
    }

    /** `remove_phone`: take out the first phone with this value, keeping the
        order of the rest; nothing happens when the value is absent. */
    method RemovePhone(phone: string)
      modifies this
      ensures phones == RemoveFirst(old(phones), phone)
      ensures birthday == old(birthday)
    {
      var i := 0;
      while i < |phones|
        invariant 0 <= i <= |phones|
        invariant phones == old(phones)
        invariant phone !in phones[..i]
      {
        if phones[i] == phone {
          RemoveFirstAt(phones, phone, i);
          phones := phones[..i] + phones[i + 1..];
          return;
        }
        i := i + 1;
      }
      assert phones[..i] == phones;
    }

    /** `edit_phone`: overwrite the value of the first phone equal to
        `oldPhone` with `newPhone`, which is not checked; fails when
        `oldPhone` is absent. */
    method EditPhone(oldPhone: string, newPhone: string) returns (r: Outcome)
      modifies this
      ensures r == if oldPhone in old(phones) then Pass else Fail(PhoneNotFound)
      ensures phones == ReplaceFirst(old(phones), oldPhone, newPhone)
      ensures birthday == old(birthday)
    {
      var found := FindPhone(oldPhone);
      match found
      case None =>
        return Fail(PhoneNotFound);
      case Some(i) =>
        ReplaceFirstAt(phones, oldPhone, newPhone, i);
        phones := phones[i := newPhone];
        return Pass;
    }

    /** `add_birthday`: set (or overwrite) the birthday from its text; a
        refused text leaves the record as it was. */
    method AddBirthday(value: string, today: Date) returns (r: Outcome)
      requires ValidDate(today)
      modifies this
      ensures r.Pass? <==> ParseBirthday(value, today).Success?
      ensures r.Fail? ==> r.error == InvalidBirthday && birthday == old(birthday)
      ensures r.Pass? ==> birthday == Some(ParseBirthday(value, today).value)
      ensures phones == old(phones)
    {
      match ParseBirthday(value, today)
      case Failure(e) =>
        return Fail(e);
      case Success(d) =>
        birthday := Some(d);
        return Pass;
    }

    /** `info_birthday`: the stored birthday, None when none was set. */
    method InfoBirthday() returns (b: Option<CalendarDate>)
      ensures b == birthday
    {
      return birthday;
    }
  }
}
