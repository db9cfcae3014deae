/**
 * The state-changing command handlers: `add_contact` creates a record on first use and
 * then adds a phone, `change_contact` edits a phone of an existing record. Their error
 * messages are the ones the handlers return once an exception has been turned into text.
 */
module Commands {
  import opened Results
  import opened Fields
  import opened Records
  import opened Book

  const CONTACT_ADDED := "Contact added."
  const CONTACT_UPDATED := "Contact updated."
  const CONTACT_MISSING := "Contact doesn't exist."

  /**
   * `add_contact`: a record for `name` exists afterwards, whatever happens to the phone.
   * A new record is filed before the phone is validated, so an invalid phone still leaves
   * the new, empty record in the book; an empty phone text adds no phone.
   */
  method AddContact(book: AddressBook, name: string, phone: string) returns (message: string)
    requires book.Valid()
    modifies book, book.data.Values
    ensures book.Valid()
    ensures name in book.data && book.data[name].name == name
    ensures name in old(book.data) ==>
      && book.keys == old(book.keys)
      && book.data == old(book.data)
      && book.data[name].birthday == old(book.data[name].birthday)
    ensures name !in old(book.data) ==>
      && fresh(book.data[name])
      && book.keys == old(book.keys) + [name]
      && book.data == old(book.data)[name := book.data[name]]
      && book.data[name].birthday.None?
    ensures forall k :: k in old(book.data) && k != name ==> unchanged(old(book.data)[k])
    ensures var before := if name in old(book.data) then old(book.data[name].phones) else [];
      var added := if name in old(book.data) then CONTACT_UPDATED else CONTACT_ADDED;
      if phone == "" then book.data[name].phones == before && message == added
      else if IsPhoneNumber(phone) then book.data[name].phones == before + [Phone(phone)] && message == added
      else book.data[name].phones == before && message == PHONE_ERROR
  {
    var record := book.Find(name);
    message := CONTACT_UPDATED;
    if record == null {
      record := new Record(name);
      book.AddRecord(record);
      message := CONTACT_ADDED;
    }
    if phone != "" {
      var outcome := record.AddPhone(phone);
      if outcome.Fail? {
        message := outcome.error;
      }
    }
  }

  /**
   * `change_contact`: edits a phone of an existing record, leaving the book's names alone;
   * an unknown name changes nothing.
   */
  method ChangeContact(book: AddressBook, name: string, oldPhone: string, newPhone: string) returns (message: string)
    requires book.Valid()
    modifies book.data.Values
    ensures forall k :: k in book.data && k != name ==> unchanged(book.data[k])
    ensures name !in book.data ==> message == CONTACT_MISSING
    ensures name in book.data ==>
      var record := book.data[name];
      && record.birthday == old(record.birthday)
      && match FirstMatch(old(record.phones), oldPhone)
        case None =>
          record.phones == old(record.phones) && message == "Number " + oldPhone + " does not exist."
        case Some(i) =>
          if IsPhoneNumber(newPhone) then record.phones == old(record.phones)[i := Phone(newPhone)] && message == CONTACT_UPDATED
          else record.phones == old(record.phones) && message == PHONE_ERROR
  {
    var record := book.Find(name);
    if record == null {
      return CONTACT_MISSING;
    }
    var outcome := record.EditPhone(oldPhone, newPhone);
    match outcome
    case Pass => message := CONTACT_UPDATED;
    case Fail(e) => message := e;
  }

  /**
   * Adding the same name twice: the first call files a new record, the second updates it,
   * and both numbers are kept in the order they were given.
   */
  method AddTwiceExample() returns (first: string, second: string, phones: seq<Phone>)
    ensures first == CONTACT_ADDED && second == CONTACT_UPDATED
    ensures phones == [Phone("1234567890"), Phone("0987654321")]
  {
    var book := new AddressBook();
    first := AddContact(book, "Alice", "1234567890");
    second := AddContact(book, "Alice", "0987654321");
    phones := book.data["Alice"].phones;
  }

  /** Editing a phone of a name the book does not hold reports the missing contact. */
  method ChangeMissingExample() returns (message: string)
    ensures message == CONTACT_MISSING
  {
    var book := new AddressBook();
    message := ChangeContact(book, "Bob", "1111111111", "2222222222");
  }
}
