/** The `add` and `change` commands, as transitions of the address book. */
module Handlers {
  import opened Base
  import opened Fields
  import opened Records
  import opened AddressBooks
  import opened Sequences

  /** The kind of message a handler answers with (the text itself is not modelled). */
  datatype Reply =
    | NameAndPhoneRequired   // `add` with fewer than two arguments
    | ContactAdded
    | ContactUpdated
    | ContactNotFound
    | NoPhonesToChange
    | Rejected(error: Error) // the message of a ValueError caught by the handler

  /** `add_contact`: check the phone, create the record if the name is new,
      then add the phone to the record. */
  method AddContact(args: seq<string>, book: AddressBook) returns (reply: Reply)
    requires book.Valid()
    modifies book, book.data.Values
    ensures book.Valid()
    ensures reply ==
      if |args| < 2 then NameAndPhoneRequired
      else if !IsPhoneText(args[1]) then Rejected(InvalidPhone)
      else if args[0] !in old(book.data) then ContactAdded
      else if args[1] in old(book.Contacts())[args[0]].phones then Rejected(DuplicatePhone)
      else ContactUpdated
    ensures reply == ContactAdded ==>
      book.Contacts() == old(book.Contacts())[args[0] := Contact(args[0], [args[1]], None)] &&
      book.keys == old(book.keys) + [args[0]]
    ensures reply == ContactUpdated ==>
      var c := old(book.Contacts())[args[0]];
      book.Contacts() == old(book.Contacts())[args[0] := c.(phones := c.phones + [args[1]])] &&
      book.keys == old(book.keys)
    ensures reply != ContactAdded && reply != ContactUpdated ==>
      book.Contacts() == old(book.Contacts()) && book.keys == old(book.keys)
  {
    if |args| < 2 {
      return NameAndPhoneRequired;
    }
    var name, phone := args[0], args[1];
    var validated := NewPhone(phone);
    if validated.Failure? {
      return Rejected(validated.error);
    }
    var record := book.Find(name);
    if record == null {
      record := new Record(name);
      book.AddRecord(record);
      reply := ContactAdded;
    } else {
      assert record.phones == old(book.Contacts())[name].phones;
      reply := ContactUpdated;
    }
    var added := record.AddPhone(validated.value);
    assert reply == ContactAdded ==> added == Pass;
    assert forall k :: k in old(book.data) && k != name ==> book.data[k] != record;
    book.ContactsAfterOneChange(name);
    if added.Fail? {
      return Rejected(added.error);
    }
    if reply == ContactAdded {
      assert record.View() == Contact(name, [phone], None);
    }
  }

  /** `change_contact`: check the new phone, then overwrite the record's
      first phone with it. */
  method ChangeContact(book: AddressBook, name: string, newPhone: string) returns (reply: Reply)
    requires book.Valid()
    modifies book.data.Values
    ensures book.Valid() && book.data == old(book.data) && book.keys == old(book.keys)
    ensures reply ==
      if !IsPhoneText(newPhone) then Rejected(InvalidPhone)
      else if name !in old(book.data) then ContactNotFound
      else if old(book.Contacts())[name].phones == [] then NoPhonesToChange
      else ContactUpdated
    ensures reply == ContactUpdated ==>
      var c := old(book.Contacts())[name];
      book.Contacts() == old(book.Contacts())[name := c.(phones := c.phones[0 := newPhone])]
    ensures reply != ContactUpdated ==> book.Contacts() == old(book.Contacts())
  {
    var validated := NewPhone(newPhone);
    if validated.Failure? {
      return Rejected(validated.error);
    }
    var record := book.Find(name);
    if record == null {
      return ContactNotFound;
    }
    if |record.phones| == 0 {
      return NoPhonesToChange;
    }
    var oldPhone := record.phones[0];
    ReplaceFirstAt(record.phones, oldPhone, validated.value, 0);
    ghost var before := book.Contacts();
    var edited := record.EditPhone(oldPhone, validated.value);
    assert edited == Pass;
    assert forall k :: k in book.data && k != name ==> book.data[k] != record;
    assert book.Contacts() == before[name := record.View()];
    return ContactUpdated;
  }
}
