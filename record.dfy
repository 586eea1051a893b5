/** One contact: an immutable name, an ordered list of phones changed in
    place, and an optional birthday. */
module Records {
  import opened Wrappers
  import opened Fields
  import opened Sequences

  class Record {
    const name: Name
    var phones: seq<Phone>
    var birthday: Option<Birthday>

    /** `Record(name)` once `Name(name)` has accepted the text. */
    constructor (name: Name)
      ensures this.name == name && phones == [] && birthday == None
    {
      this.name := name;
      phones := [];
      birthday := None;
    }

    /** `add_phone`: validate, then append at the end. */
    method AddPhone(phone: string) returns (res: Outcome<Error>)
      modifies this
      ensures res == (if IsPhoneNumber(phone) then Pass else Fail(InvalidPhone))
      ensures phones == if IsPhoneNumber(phone) then old(phones) + [phone] else old(phones)
      ensures birthday == old(birthday)
    {
      var p := MakePhone(phone);
      if p.Failure? {
        return Fail(p.error);
      }
      phones := phones + [p.value];
      res := Pass;
    }

    /** `remove_phone`: drop the first phone equal to `phone`; no validation,
        and an absent phone is reported rather than raised. */
    method RemovePhone(phone: string) returns (res: Outcome<Error>)
      modifies this
      ensures var k := IndexOf(old(phones), phone);
        if k < |old(phones)| then res == Pass && phones == RemoveAt(old(phones), k)
        else res == Fail(PhoneNotFound) && phones == old(phones)
      ensures birthday == old(birthday)
    {
      var i := 0;
      while i < |phones|
        invariant 0 <= i <= |phones|
        invariant phones == old(phones)
        invariant forall j :: 0 <= j < i ==> phones[j] != phone
      {
        if phones[i] == phone {
          phones := phones[..i] + phones[i + 1..];
          return Pass;
        }
        i := i + 1;
      }
      return Fail(PhoneNotFound);
    }

    /** `edit_phone`: both numbers are validated first; then the first phone
        equal to `oldPhone` is overwritten, or the edit fails when none is. */
    method EditPhone(oldPhone: string, newPhone: string) returns (res: Outcome<Error>)
      modifies this
      ensures !IsPhoneNumber(oldPhone) || !IsPhoneNumber(newPhone) ==>
        res == Fail(InvalidPhone) && phones == old(phones)
      ensures IsPhoneNumber(oldPhone) && IsPhoneNumber(newPhone) ==>
        var k := IndexOf(old(phones), oldPhone);
        if k < |old(phones)| then res == Pass && phones == old(phones)[k := newPhone]
        else res == Fail(PhoneNotFound) && phones == old(phones)
      ensures birthday == old(birthday)
    {
      var o := MakePhone(oldPhone);
      if o.Failure? {
        return Fail(o.error);
      }
      var n := MakePhone(newPhone);
      if n.Failure? {
        return Fail(n.error);
      }
      var i := 0;
      while i < |phones|
        invariant 0 <= i <= |phones|
        invariant phones == old(phones)
        invariant forall j :: 0 <= j < i ==> phones[j] != oldPhone
      {
        if phones[i] == o.value {
          phones := phones[i := n.value];
          return Pass;
        }
        i := i + 1;
      }
      return Fail(PhoneNotFound);
    }

    /** `find_phone`: validate, then the phone equal to `phone` if any. */
    method FindPhone(phone: string) returns (res: Result<Option<Phone>, Error>)
      ensures !IsPhoneNumber(phone) ==> res == Failure(InvalidPhone)
      ensures IsPhoneNumber(phone) && phone in phones ==> res == Success(Some(phone))
      ensures IsPhoneNumber(phone) && phone !in phones ==> res == Success(None)
    {
      var p := MakePhone(phone);
      if p.Failure? {
        return Failure(p.error);
      }
      var i := 0;
      while i < |phones|
        invariant 0 <= i <= |phones|
        invariant forall j :: 0 <= j < i ==> phones[j] != phone
      {
        if phones[i] == p.value {
          return Success(Some(phones[i]));
        }
        i := i + 1;
      }
      return Success(None);
    }

    /** `add_birthday`: validate, then set or overwrite the birthday. */
    method AddBirthday(date: string) returns (res: Outcome<Error>)
      modifies this
      ensures IsBirthdayText(date) ==> res == Pass && birthday == Some(date)
      ensures !IsBirthdayText(date) ==> res == Fail(InvalidBirthday) && birthday == old(birthday)
      ensures phones == old(phones)
    {
      var b := MakeBirthday(date);
      if b.Failure? {
        return Fail(b.error);
      }
      birthday := Some(b.value);
      res := Pass;
    }
  }
}
