/** The command handlers that change the book: `add_contact`,
    `change_contact` and `add_birthday`, with the arguments already split
    into fields. Errors are returned instead of turned into messages. */
module Commands {
  import opened Wrappers
  import opened Fields
  import opened Records
  import opened Book

  /** "Contact added." or "Contact updated." */
  datatype AddOutcome = Added | Updated

  /** `add_contact([name, phone], book)`: find or create the record, then
      append the phone when one is given. A new record is stored before the
      phone is validated, so a rejected phone still leaves the new, phoneless
      contact in the book. */
  method AddContact(book: AddressBook, name: string, phone: string) returns (res: Result<AddOutcome, Error>)
    requires book.Valid()
    modifies book, set r | r in book.data.Values && r.name == name
    ensures book.Valid()
    ensures name in old(book.data) ==>
      && book.data == old(book.data) && book.order == old(book.order)
      && book.data[name].birthday == old(book.data[name].birthday)
      && (phone == "" ==> res == Success(Updated) && book.data[name].phones == old(book.data[name].phones))
      && (phone != "" && IsPhoneNumber(phone) ==>
            res == Success(Updated) && book.data[name].phones == old(book.data[name].phones) + [phone])
      && (phone != "" && !IsPhoneNumber(phone) ==>
            res == Failure(InvalidPhone) && book.data[name].phones == old(book.data[name].phones))
    ensures name !in old(book.data) && name == "" ==>
      res == Failure(EmptyName) && book.data == old(book.data) && book.order == old(book.order)
    ensures name !in old(book.data) && name != "" ==>
      && name in book.data && fresh(book.data[name])
      && book.data == old(book.data)[name := book.data[name]]
      && book.order == old(book.order) + [name]
      && book.data[name].birthday == None
      && book.data[name].phones == (if phone != "" && IsPhoneNumber(phone) then [phone] else [])
      && res == (if phone != "" && !IsPhoneNumber(phone) then Failure(InvalidPhone) else Success(Added))
  {
    var found := book.Find(name);
    var record: Record;
    var outcome := Updated;
    if found.None? {
      var n := MakeName(name);
      if n.Failure? {
        return Failure(n.error);
      }
      record := new Record(n.value);
      book.AddRecord(record);
      outcome := Added;
    } else {
      record := found.value;
    }
    if phone != "" {
      var added := record.AddPhone(phone);
      if added.Fail? {
        return Failure(added.error);
      }
    }
    return Success(outcome);
  }

  /** `change_contact([name, old_phone, new_phone], book)`: edit a phone of an
      existing contact; an unknown contact is reported and nothing changes. */
  method ChangeContact(book: AddressBook, name: string, oldPhone: string, newPhone: string)
    returns (res: Outcome<Error>)
    requires book.Valid()
    modifies set r | r in book.data.Values && r.name == name
    ensures name !in book.data ==> res == Fail(ContactNotFound)
    ensures name in book.data ==>
      var r := book.data[name];
      && r.birthday == old(r.birthday)
      && (!IsPhoneNumber(oldPhone) || !IsPhoneNumber(newPhone) ==>
            res == Fail(InvalidPhone) && r.phones == old(r.phones))
      && (IsPhoneNumber(oldPhone) && IsPhoneNumber(newPhone) ==>
            var k := Sequences.IndexOf(old(r.phones), oldPhone);
            if k < |old(r.phones)| then res == Pass && r.phones == old(r.phones)[k := newPhone]
            else res == Fail(PhoneNotFound) && r.phones == old(r.phones))
  {
    var found := book.Find(name);
    if found.None? {
      return Fail(ContactNotFound);
    }
    res := found.value.EditPhone(oldPhone, newPhone);
  }

  /** `add_birthday([name, date], book)`: set the birthday of an existing
      contact; an unknown contact is reported and nothing changes. */
  method AddBirthdayTo(book: AddressBook, name: string, date: string) returns (res: Outcome<Error>)
    requires book.Valid()
    modifies set r | r in book.data.Values && r.name == name
    ensures name !in book.data ==> res == Fail(ContactNotFound)
    ensures name in book.data ==>
      var r := book.data[name];
      && r.phones == old(r.phones)
      && (IsBirthdayText(date) ==> res == Pass && r.birthday == Some(date))
      && (!IsBirthdayText(date) ==> res == Fail(InvalidBirthday) && r.birthday == old(r.birthday))
  {
    var found := book.Find(name);
    if found.None? {
      return Fail(ContactNotFound);
    }
    res := found.value.AddBirthday(date);
  }
}
