/** `ContactManager` of phonebook.py: an object whose list of contacts the
    operations change in place. Besides the list, the object keeps as ghost state
    what the files would show: every list written to contacts.csv and every
    message appended to log.txt. Each method is proved against the matching
    function of module Contacts, whose lemmas say what the operation means. */
module Phonebook {
  import opened Util
  import opened Validators
  import opened Contacts

  class ContactManager {
    /** `self.contacts`, in list order. */
    var contacts: seq<Contact>
    /** Every list `save_contacts` has written, oldest first. */
    ghost var saves: seq<seq<Contact>>
    /** Every action `log_action` has appended, oldest first, without timestamps. */
    ghost var log: seq<string>

    /** Every record holds the five columns, so `contact['Phone Number']` and the
        other lookups never raise KeyError. */
    ghost predicate Valid()
      reads this
    {
      AllHaveColumns(contacts)
    }

    ghost function Snapshot(): Store
      reads this
    {
      Store(contacts, saves, log)
    }

    /** `__init__` with `load_contacts`: `stored` is the list read from
        contacts.csv, or empty when the file does not exist. */
    constructor (stored: seq<Contact>)
      requires AllHaveColumns(stored)
      ensures Valid() && Snapshot() == Store(stored, [], [])
    {
      contacts := stored;
      saves := [];
      log := [];
    }

    method AddContact(first: string, last: string, phone: string, email: string, address: string)
      returns (result: AddResult)
      requires Valid()
      modifies this
      ensures Valid()
      ensures result == Admit(phone, email)
      ensures Snapshot() == AddTo(old(Snapshot()), first, last, phone, email, address)
    {
      if !ValidatePhone(phone) {
        return InvalidPhone;
      }
      if email != "" && !ValidateEmail(email) {
        return InvalidEmail;
      }
      contacts := contacts + [NewContact(first, last, phone, email, address)];
      saves := saves + [contacts];
      log := log + [AddedMessage(first, last)];
      return Added;
    }

    /** `search_contacts`, returning what it prints. */
    method SearchContacts(query: string) returns (results: seq<Contact>)
      requires Valid()
      ensures results == Matches(contacts, query)
    {
      results := Matches(contacts, query);
    }

    method DeleteContact(phone: string)
      requires Valid()
      modifies this
      ensures Valid()
      ensures Snapshot() == DeleteFrom(old(Snapshot()), phone)
    {
      DeleteKeepsColumns(contacts, phone);
      contacts := Deleted(contacts, phone);
      saves := saves + [contacts];
      log := log + [DeletedMessage(phone)];
    }

    /** `update_contact(phone_number, **kwargs)` with the keyword arguments as the
        map `changes`; `found` tells which message it prints. */
    method UpdateContact(phone: string, changes: map<string, string>) returns (found: bool)
      requires Valid()
      modifies this
      ensures Valid()
      ensures found == FirstMatch(old(contacts), phone).Some?
      ensures Snapshot() == UpdateIn(old(Snapshot()), phone, changes)
    {
      UpdateKeepsColumns(Snapshot(), phone, changes);
      var i := 0;
      while i < |contacts|
        invariant 0 <= i <= |contacts|
        invariant Snapshot() == old(Snapshot())
        invariant forall j :: 0 <= j < i ==> !HasPhone(contacts[j], phone)
      {
        if contacts[i][PhoneNumber] == phone {
          contacts := contacts[i := Merge(contacts[i], changes)];
          saves := saves + [contacts];
          log := log + [UpdatedMessage(phone)];
          return true;
        }
        i := i + 1;
      }
      return false;
    }

    /** `import_contacts` over the rows of the file; `completed` is false when a
        row without one of the first three columns raised KeyError. */
    method ImportContacts(rows: seq<Row>) returns (completed: bool)
      requires Valid()
      modifies this
      ensures Valid()
      ensures completed == (FirstBadRow(rows) == |rows|)
      ensures Snapshot() == ImportInto(old(Snapshot()), rows)
    {
      var i := 0;
      while i < |rows|
        invariant 0 <= i <= |rows|
        invariant Valid()
        invariant AllReadable(rows[..i])
        invariant Snapshot() == AddRows(old(Snapshot()), rows[..i])
      {
        var row := rows[i];
        if !Readable(row) {
          assert FirstBadRow(rows) == i;
          return false;
        }
        AddRowsSnoc(old(Snapshot()), rows[..i], row);
        var _ := AddContact(row[FirstName], row[LastName], row[PhoneNumber],
                            GetOr(row, EmailAddress), GetOr(row, Address));
        assert rows[..i + 1] == rows[..i] + [row];
        i := i + 1;
      }
      assert rows[..i] == rows;
      return true;
    }

    /** `sort_contacts(by)`; `sorted` is false when a record lacks the key and
        the sort raised KeyError. */
    method SortContacts(field: string) returns (sorted: bool)
      requires Valid()
      modifies this
      ensures Valid()
      ensures sorted == HasKey(old(contacts), field)
      ensures Snapshot() == SortIn(old(Snapshot()), field)
    {
      if !HasKey(contacts, field) {
        return false;
      }
      SortKeepsColumns(contacts, field);
      contacts := SortBy(contacts, field);
      return true;
    }
  }

  // ------------------------------------------------ menu option 4 of `main`

  /** The keyword arguments menu option 4 passes to `update_contact`. */
  function MenuChanges(first: string, last: string, email: string, address: string): map<string, string> {
    map["first_name" := first, "last_name" := last, "email" := email, "address" := address]
  }

  /** The same four answers keyed by the stored column names, as the prompt
      ("leave blank to keep current value") intends. */
  function MenuColumnChanges(first: string, last: string, email: string, address: string): map<string, string> {
    map[FirstName := first, LastName := last, EmailAddress := email, Address := address]
  }

  /** As written, an update from the menu changes none of the five columns; a
      non-blank answer only adds a key outside the header `save_contacts` writes. */
  lemma MenuUpdateMissesColumns(c: Contact, first: string, last: string, email: string, address: string)
    requires HasColumns(c)
    ensures var r := Merge(c, MenuChanges(first, last, email, address));
      && (forall k :: k in Columns ==> k in r && r[k] == c[k])
      && (address != "" ==> "address" in r && "address" !in Columns)
  {
  }

  /** Keyed by the columns, an update from the menu sets each non-blank answer,
      keeps each blank one's current value, leaves the phone alone and adds no key. */
  lemma MenuColumnUpdate(c: Contact, first: string, last: string, email: string, address: string)
    requires HasColumns(c)
    ensures var r := Merge(c, MenuColumnChanges(first, last, email, address));
      && r.Keys == c.Keys
      && r[FirstName] == (if first != "" then first else c[FirstName])
      && r[LastName] == (if last != "" then last else c[LastName])
      && r[EmailAddress] == (if email != "" then email else c[EmailAddress])
      && r[Address] == (if address != "" then address else c[Address])
      && r[PhoneNumber] == c[PhoneNumber]
  {
    var r := Merge(c, MenuColumnChanges(first, last, email, address));
    assert FirstName in c && LastName in c && EmailAddress in c && Address in c;
  }

  /** Jane's phone and email pass both checks. */
  lemma JaneAdmitted(phone: string, email: string)
    requires phone == "(555) 123-4567" && email == "jane@example.com"
    ensures Admit(phone, email) == Added
  {
    assert PhoneShape(phone) by {
      assert phone[1..4] == "555" && phone[6..9] == "123" && phone[10..] == "4567";
    }
    assert SplitsAt(email, 4, 12) by {
      assert email[..4] == "jane" && email[5..12] == "example" && email[13..] == "com";
    }
    SplitGivesShape(email, 4, 12);
  }

  /** An admitted contact added to an empty store is its one record. */
  lemma AddToEmpty(first: string, last: string, phone: string, email: string, address: string)
    requires Admit(phone, email) == Added
    ensures var c := NewContact(first, last, phone, email, address);
      AddTo(Store([], [], []), first, last, phone, email, address) == Store([c], [[c]], [AddedMessage(first, last)])
  {
    var c := NewContact(first, last, phone, email, address);
    assert [] + [c] == [c];
  }

  /** Updating the one record of a store that holds `phone` merges into it. */
  lemma UpdateSingle(c: Contact, phone: string, changes: map<string, string>, saves: seq<seq<Contact>>, log: seq<string>)
    requires HasPhone(c, phone)
    ensures var r := Merge(c, changes);
      UpdateIn(Store([c], saves, log), phone, changes) == Store([r], saves + [[r]], log + [UpdatedMessage(phone)])
  {
    assert FirstMatch([c], phone) == Some(0);
    assert [c][0 := Merge(c, changes)] == [Merge(c, changes)];
  }

  /** Deleting the phone of the one record of a store empties it. */
  lemma DeleteSingle(c: Contact, phone: string, saves: seq<seq<Contact>>, log: seq<string>)
    requires HasPhone(c, phone)
    ensures DeleteFrom(Store([c], saves, log), phone) == Store([], saves + [[]], log + [DeletedMessage(phone)])
  {
    DeleteMembers([c], phone);
    assert Deleted([c], phone) == [];
  }

  /** A non-blank address answered alone replaces the address of a fresh record. */
  lemma NewAddress(first: string, last: string, phone: string, email: string, address: string, moved: string)
    requires moved != ""
    ensures Merge(NewContact(first, last, phone, email, address), MenuColumnChanges("", "", "", moved))
         == NewContact(first, last, phone, email, moved)
  {
    MenuColumnUpdate(NewContact(first, last, phone, email, address), "", "", "", moved);
  }

  /** Add a contact to an empty store, then change its address through the menu
      keyed by the columns: one record, then the same record with the new
      address and every other field kept, with one log line per step. */
  lemma AddThenMove(first: string, last: string, phone: string, email: string, address: string, moved: string)
    requires Admit(phone, email) == Added && moved != ""
    ensures var st1 := AddTo(Store([], [], []), first, last, phone, email, address);
      var st2 := UpdateIn(st1, phone, MenuColumnChanges("", "", "", moved));
      && st1.contacts == [NewContact(first, last, phone, email, address)]
      && st2.contacts == [NewContact(first, last, phone, email, moved)]
      && st2.log == [AddedMessage(first, last)] + [UpdatedMessage(phone)]
      && Writable(st2.contacts)
  {
    var c := NewContact(first, last, phone, email, address);
    AddToEmpty(first, last, phone, email, address);
    NewAddress(first, last, phone, email, address, moved);
    UpdateSingle(c, phone, MenuColumnChanges("", "", "", moved), [[c]], [AddedMessage(first, last)]);
  }

  /** The same steps through the menu as written: the address reads as it was,
      and the record gains an "address" key outside the header, so the
      `save_contacts` that follows the merge raises ValueError (before the
      update is logged), after `open(..., 'w')` has already emptied the file. */
  lemma MenuMoveKeepsAddress(first: string, last: string, phone: string, email: string, address: string, moved: string)
    requires Admit(phone, email) == Added && moved != ""
    ensures var st1 := AddTo(Store([], [], []), first, last, phone, email, address);
      var st2 := UpdateIn(st1, phone, MenuChanges("", "", "", moved));
      && |st2.contacts| == 1
      && st2.contacts[0][Address] == address
      && "address" in st2.contacts[0] && "address" !in Columns
      && !Writable(st2.contacts)
  {
    var c := NewContact(first, last, phone, email, address);
    AddToEmpty(first, last, phone, email, address);
    UpdateSingle(c, phone, MenuChanges("", "", "", moved), [[c]], [AddedMessage(first, last)]);
    MenuUpdateMissesColumns(c, "", "", "", moved);
  }
}
