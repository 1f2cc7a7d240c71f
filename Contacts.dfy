/** The record store of phonebook.py as values: a contact is a dictionary from
    column name to text, and a `Store` is what `ContactManager` has done so far:
    the list in memory, every list `save_contacts` wrote to contacts.csv, and
    every message `log_action` appended to log.txt. Each operation is a function
    from the store before to the store after; the class in Phonebook.dfy is
    proved against these functions, and the lemmas here say what they mean. */
module Contacts {
  import opened Util
  import opened Text
  import opened Validators

  /** One record: column name to text, as `csv.DictReader` and `add_contact`
      build it. `update_contact` may add keys of any name. */
  type Contact = map<string, string>

  /** One row of a file given to `import_contacts`. */
  type Row = map<string, string>

  const FirstName := "First Name"
  const LastName := "Last Name"
  const PhoneNumber := "Phone Number"
  const EmailAddress := "Email Address"
  const Address := "Address"

  /** The header `save_contacts` writes, in its order. */
  const Columns: seq<string> := [FirstName, LastName, PhoneNumber, EmailAddress, Address]

  predicate HasColumns(c: Contact) {
    forall k :: k in Columns ==> k in c
  }

  predicate AllHaveColumns(cs: seq<Contact>) {
    forall i :: 0 <= i < |cs| ==> HasColumns(cs[i])
  }

  /** What the `csv.DictWriter` of `save_contacts` can write: with its default
      `extrasaction='raise'` a record holding a key outside the header makes
      `writerows` raise ValueError. */
  predicate Writable(cs: seq<Contact>) {
    forall i :: 0 <= i < |cs| ==> forall k :: k in cs[i] ==> k in Columns
  }

  /** The record `add_contact` appends. */
  function NewContact(first: string, last: string, phone: string, email: string, address: string): (c: Contact)
    ensures HasColumns(c) && c.Keys == set k | k in Columns
  {
    map[FirstName := first, LastName := last, PhoneNumber := phone, EmailAddress := email, Address := address]
  }

  /** What the store has done so far. `saves` and `log` grow only. */
  datatype Store = Store(contacts: seq<Contact>, saves: seq<seq<Contact>>, log: seq<string>)

  /** Replace the list, write it to contacts.csv, then append one log message. */
  function Commit(st: Store, cs: seq<Contact>, message: string): Store {
    Store(cs, st.saves + [cs], st.log + [message])
  }

  // ---------------------------------------------------------------- add_contact

  datatype AddResult = Added | InvalidPhone | InvalidEmail

  /** The checks of `add_contact`, in its order: the phone, then the email only
      when it is non-empty. */
  function Admit(phone: string, email: string): AddResult {
    if !ValidatePhone(phone) then InvalidPhone
    else if email != "" && !ValidateEmail(email) then InvalidEmail
    else Added
  }

  function AddedMessage(first: string, last: string): string {
    "Added contact: " + first + " " + last
  }

  /** `add_contact`: a rejected contact changes nothing, not even the files. */
  function AddTo(st: Store, first: string, last: string, phone: string, email: string, address: string): Store {
    if Admit(phone, email) != Added then st
    else Commit(st, st.contacts + [NewContact(first, last, phone, email, address)], AddedMessage(first, last))
  }

  /** Adding keeps every record's five columns. */
  lemma AddKeepsColumns(st: Store, first: string, last: string, phone: string, email: string, address: string)
    requires AllHaveColumns(st.contacts)
    ensures AllHaveColumns(AddTo(st, first, last, phone, email, address).contacts)
  {
  }

  /** An add either rejects and leaves the store exactly as it was, or appends the
      one new record at the end, with one save of the new list and one log line. */
  lemma AddEffect(st: Store, first: string, last: string, phone: string, email: string, address: string)
    ensures var st' := AddTo(st, first, last, phone, email, address);
      && (Admit(phone, email) != Added <==> st' == st)
      && (Admit(phone, email) == Added ==>
            && |st'.contacts| == |st.contacts| + 1
            && st'.contacts[..|st.contacts|] == st.contacts
            && st'.contacts[|st.contacts|] == NewContact(first, last, phone, email, address)
            && st'.saves == st.saves + [st'.contacts]
            && st'.log == st.log + [AddedMessage(first, last)])
  {
    var st' := AddTo(st, first, last, phone, email, address);
    if Admit(phone, email) == Added {
      assert |st'.log| == |st.log| + 1;
    }
  }

  /** An empty email is never checked: only the phone decides. */
  lemma EmptyEmailNotChecked(phone: string)
    ensures Admit(phone, "") == Added <==> ValidatePhone(phone)
  {
  }

  // ------------------------------------------------------------- delete_contact

  /** The record holds `phone` under "Phone Number". */
  predicate HasPhone(c: Contact, phone: string) {
    PhoneNumber in c && c[PhoneNumber] == phone
  }

  /** The list comprehension of `delete_contact`. */
  function Deleted(cs: seq<Contact>, phone: string): seq<Contact> {
    Filter(cs, c => !HasPhone(c, phone))
  }

  function DeletedMessage(phone: string): string {
    "Deleted contact with phone number: " + phone
  }

  /** `delete_contact`: it saves and logs whether or not anything matched. */
  function DeleteFrom(st: Store, phone: string): Store {
    Commit(st, Deleted(st.contacts, phone), DeletedMessage(phone))
  }

  /** A record survives exactly when it was there and holds another phone, so
      no record with `phone` remains. */
  lemma DeleteMembers(cs: seq<Contact>, phone: string)
    ensures forall c :: c in Deleted(cs, phone) <==> c in cs && !HasPhone(c, phone)
  {
    FilterMembers(cs, c => !HasPhone(c, phone));
  }

  /** The survivors keep their order: deleting from a concatenation deletes from
      each part. */
  lemma DeleteKeepsOrder(a: seq<Contact>, b: seq<Contact>, phone: string)
    ensures Deleted(a + b, phone) == Deleted(a, phone) + Deleted(b, phone)
  {
    FilterAppend(a, b, c => !HasPhone(c, phone));
  }

  /** Deleting twice equals deleting once. */
  lemma DeleteIdempotent(cs: seq<Contact>, phone: string)
    ensures Deleted(Deleted(cs, phone), phone) == Deleted(cs, phone)
  {
    FilterIdempotent(cs, c => !HasPhone(c, phone));
  }

  /** With no record holding `phone`, the list is unchanged, yet it is still
      saved and the deletion logged. */
  lemma DeleteAbsent(st: Store, phone: string)
    requires forall i :: 0 <= i < |st.contacts| ==> !HasPhone(st.contacts[i], phone)
    ensures DeleteFrom(st, phone).contacts == st.contacts
    ensures DeleteFrom(st, phone).saves == st.saves + [st.contacts]
    ensures DeleteFrom(st, phone).log == st.log + [DeletedMessage(phone)]
  {
    FilterKeepsAll(st.contacts, c => !HasPhone(c, phone));
  }

  lemma DeleteKeepsColumns(cs: seq<Contact>, phone: string)
    requires AllHaveColumns(cs)
    ensures AllHaveColumns(Deleted(cs, phone))
  {
    DeleteMembers(cs, phone);
    var r := Deleted(cs, phone);
    forall i | 0 <= i < |r|
      ensures HasColumns(r[i])
    {
      assert r[i] in cs;
    }
  }

  // ------------------------------------------------------------- search_contacts

  /** The text `search_contacts` looks in: first and last name lower-cased, then
      the phone as stored, with no separator. */
  function Haystack(c: Contact): string {
    Lower(GetOr(c, FirstName)) + Lower(GetOr(c, LastName)) + GetOr(c, PhoneNumber)
  }

  predicate SearchHit(c: Contact, query: string) {
    IsSubstring(Lower(query), Haystack(c))
  }

  /** The list comprehension of `search_contacts`. */
  function Matches(cs: seq<Contact>, query: string): seq<Contact> {
    Filter(cs, c => SearchHit(c, query))
  }

  /** A record is found exactly when it is stored and the lower-cased query
      occurs in its haystack. */
  lemma SearchMembers(cs: seq<Contact>, query: string)
    ensures forall c :: c in Matches(cs, query) <==> c in cs && SearchHit(c, query)
  {
    FilterMembers(cs, c => SearchHit(c, query));
  }

  /** Results come in list order. */
  lemma SearchKeepsOrder(a: seq<Contact>, b: seq<Contact>, query: string)
    ensures Matches(a + b, query) == Matches(a, query) + Matches(b, query)
  {
    FilterAppend(a, b, c => SearchHit(c, query));
  }

  /** The empty query finds every contact. */
  lemma SearchEmptyQuery(cs: seq<Contact>)
    ensures Matches(cs, "") == cs
  {
    forall i | 0 <= i < |cs|
      ensures SearchHit(cs[i], "")
    {
      EmptyIsSubstring(Haystack(cs[i]));
    }
    FilterKeepsAll(cs, c => SearchHit(c, ""));
  }

  /** A query that occurs, ignoring case, in the first name finds the record. */
  lemma HitOnFirstName(c: Contact, query: string)
    requires IsSubstring(Lower(query), Lower(GetOr(c, FirstName)))
    ensures SearchHit(c, query)
  {
    var first, last := Lower(GetOr(c, FirstName)), Lower(GetOr(c, LastName));
    SubstringOfPart(Lower(query), first, last);
    SubstringOfPart(Lower(query), first + last, GetOr(c, PhoneNumber));
  }

  /** After a successful add, a search for part of the new first name, in any
      case, returns what it returned before followed by the new record. */
  lemma AddThenSearch(st: Store, first: string, last: string, phone: string, email: string, address: string, query: string)
    requires Admit(phone, email) == Added
    requires IsSubstring(Lower(query), Lower(first))
    ensures Matches(AddTo(st, first, last, phone, email, address).contacts, query)
         == Matches(st.contacts, query) + [NewContact(first, last, phone, email, address)]
  {
    var c := NewContact(first, last, phone, email, address);
    HitOnFirstName(c, query);
    SearchKeepsOrder(st.contacts, [c], query);
  }

  /** A search for a deleted phone number can still return records: the number
      may occur in another record's names. Deleting `q`, for instance
      "(555) 123-4567", from a list whose only record has `q` as its first name
      and another phone keeps that record, and the search for `q` returns it. */
  lemma SearchAfterDeleteMayMatch(q: string, last: string, other: string)
    requires forall i :: 0 <= i < |q| ==> !('A' <= q[i] <= 'Z')
    requires other != q
    ensures var c := NewContact(q, last, other, "", "");
      DeleteFrom(Store([c], [], []), q).contacts == [c] && Matches([c], q) == [c]
  {
    var c := NewContact(q, last, other, "", "");
    assert !HasPhone(c, q);
    DeleteAbsent(Store([c], [], []), q);
    assert Lower(q) == q;
    assert OccursAt(q, q, 0);
    HitOnFirstName(c, q);
    FilterKeepsAll([c], c' => SearchHit(c', q));
  }

  // ------------------------------------------------------------- update_contact

  /** Index of the first record holding `phone`, the one `update_contact`'s loop
      stops at. */
  function FirstMatch(cs: seq<Contact>, phone: string): (r: Option<nat>)
    ensures r.Some? ==> r.value < |cs| && HasPhone(cs[r.value], phone)
    ensures r.Some? ==> forall j :: 0 <= j < r.value ==> !HasPhone(cs[j], phone)
    ensures r.None? ==> forall j :: 0 <= j < |cs| ==> !HasPhone(cs[j], phone)
  {
    if cs == [] then None
    else if HasPhone(cs[0], phone) then Some(0)
    else match FirstMatch(cs[1..], phone)
      case None => None
      case Some(i) => Some(i + 1)
  }

  /** `contact.update((k, v) for k, v in kwargs.items() if v)`: each key given a
      non-empty value is set or added, every other key keeps its value, and
      nothing is validated. */
  function Merge(c: Contact, changes: map<string, string>): (r: Contact)
    ensures forall k :: k in changes && changes[k] != "" ==> k in r && r[k] == changes[k]
    ensures forall k :: !(k in changes && changes[k] != "") ==> (k in r <==> k in c)
    ensures forall k :: k in c && !(k in changes && changes[k] != "") ==> r[k] == c[k]
  {
    c + map k | k in changes && changes[k] != "" :: changes[k]
  }

  function UpdatedMessage(phone: string): string {
    "Updated contact with phone number: " + phone
  }

  /** `update_contact`: only the first record holding `phone` is merged; when no
      record holds it nothing changes and nothing is saved or logged. */
  function UpdateIn(st: Store, phone: string, changes: map<string, string>): Store {
    match FirstMatch(st.contacts, phone)
    case None => st
    case Some(i) => Commit(st, st.contacts[i := Merge(st.contacts[i], changes)], UpdatedMessage(phone))
  }

  /** Exactly one record changes, the first holding `phone`; every other record,
      later duplicates included, is as it was. */
  lemma {:induction false} UpdateOnlyFirst(st: Store, phone: string, changes: map<string, string>, i: nat)
    requires i < |st.contacts| && HasPhone(st.contacts[i], phone)
    requires forall j :: 0 <= j < i ==> !HasPhone(st.contacts[j], phone)
    ensures var st' := UpdateIn(st, phone, changes);
      && |st'.contacts| == |st.contacts|
      && st'.contacts[i] == Merge(st.contacts[i], changes)
      && (forall j :: 0 <= j < |st.contacts| && j != i ==> st'.contacts[j] == st.contacts[j])
      && st'.saves == st.saves + [st'.contacts]
      && st'.log == st.log + [UpdatedMessage(phone)]
  {
  }

  /** With no record holding `phone`, the update leaves the store as it was. */
  lemma UpdateAbsent(st: Store, phone: string, changes: map<string, string>)
    requires forall j :: 0 <= j < |st.contacts| ==> !HasPhone(st.contacts[j], phone)
    ensures UpdateIn(st, phone, changes) == st
  {
  }

  /** A blank new value keeps the current one: the key reads the same in every
      record afterwards. */
  lemma UpdateBlankKeeps(st: Store, phone: string, changes: map<string, string>, key: string)
    requires key in changes ==> changes[key] == ""
    ensures var st' := UpdateIn(st, phone, changes);
      |st'.contacts| == |st.contacts| &&
      forall j :: 0 <= j < |st.contacts| ==>
        (key in st'.contacts[j] <==> key in st.contacts[j]) &&
        (key in st.contacts[j] ==> st'.contacts[j][key] == st.contacts[j][key])
  {
  }

  lemma UpdateKeepsColumns(st: Store, phone: string, changes: map<string, string>)
    requires AllHaveColumns(st.contacts)
    ensures AllHaveColumns(UpdateIn(st, phone, changes).contacts)
  {
  }

  // -------------------------------------------------------------- sort_contacts

  /** Every record holds the sort key; otherwise `x[field]` raises KeyError. */
  predicate HasKey(cs: seq<Contact>, field: string) {
    forall i :: 0 <= i < |cs| ==> field in cs[i]
  }

  /** Ascending by the `by` value under Python's string `<`: no record's key is
      below an earlier record's key. */
  predicate SortedBy(cs: seq<Contact>, field: string)
    requires HasKey(cs, field)
  {
    forall i, j :: 0 <= i < j < |cs| ==> !Below(cs[j][field], cs[i][field])
  }

  /** Put `x` before the first record whose key is not below its own. */
  function Insert(x: Contact, cs: seq<Contact>, field: string): (r: seq<Contact>)
    requires field in x && HasKey(cs, field)
    ensures HasKey(r, field)
    ensures multiset(r) == multiset(cs) + multiset{x}
  {
    if cs == [] || !Below(cs[0][field], x[field]) then [x] + cs
    else
      assert cs == [cs[0]] + cs[1..];
      [cs[0]] + Insert(x, cs[1..], field)
  }

  /** `list.sort(key=lambda x: x[field])`, given as a stable insertion sort. */
  function SortBy(cs: seq<Contact>, field: string): (r: seq<Contact>)
    requires HasKey(cs, field)
    ensures HasKey(r, field)
  {
    if cs == [] then [] else Insert(cs[0], SortBy(cs[1..], field), field)
  }

  /** `sort_contacts`: when a record lacks the key, the KeyError leaves the list
      as it was (the keys are all computed before anything moves). Sorting is
      never saved or logged. */
  function SortIn(st: Store, field: string): Store {
    if HasKey(st.contacts, field) then st.(contacts := SortBy(st.contacts, field)) else st
  }

  lemma {:induction false} InsertSorted(x: Contact, cs: seq<Contact>, field: string)
    requires field in x && HasKey(cs, field) && SortedBy(cs, field)
    ensures SortedBy(Insert(x, cs, field), field)
  {
    if cs == [] || !Below(cs[0][field], x[field]) {
      var r := [x] + cs;
      forall i, j | 0 <= i < j < |r|
        ensures !Below(r[j][field], r[i][field])
      {
        if i == 0 && j > 1 {
          AtMostTransitive(x[field], cs[0][field], cs[j - 1][field]);
        }
      }
    } else {
      InsertSorted(x, cs[1..], field);
      var rest := Insert(x, cs[1..], field);
      var r := [cs[0]] + rest;
      BelowAsymmetric(cs[0][field], x[field]);
      InsertAtLeast(x, cs[1..], field, cs[0][field]);
      assert forall i, j :: 0 < i < j < |r| ==> r[i] == rest[i - 1] && r[j] == rest[j - 1];
    }
  }

  /** Inserting keeps a lower bound that the new record and the list respect. */
  lemma InsertAtLeast(x: Contact, cs: seq<Contact>, field: string, low: string)
    requires field in x && HasKey(cs, field)
    requires !Below(x[field], low)
    requires forall i :: 0 <= i < |cs| ==> !Below(cs[i][field], low)
    ensures forall j :: 0 <= j < |Insert(x, cs, field)| ==> !Below(Insert(x, cs, field)[j][field], low)
  {
    var r := Insert(x, cs, field);
    forall j | 0 <= j < |r|
      ensures !Below(r[j][field], low)
    {
      assert r[j] in multiset(r);
      if r[j] != x {
        assert r[j] in multiset(cs);
        var k :| 0 <= k < |cs| && cs[k] == r[j];
      }
    }
  }

  /** The sort leaves the list ascending by the key. */
  lemma {:induction false} SortBySorted(cs: seq<Contact>, field: string)
    requires HasKey(cs, field)
    ensures SortedBy(SortBy(cs, field), field)
  {
    if cs != [] {
      SortBySorted(cs[1..], field);
      InsertSorted(cs[0], SortBy(cs[1..], field), field);
    }
  }

  /** The sort neither loses nor invents records. */
  lemma {:induction false} SortByPermutes(cs: seq<Contact>, field: string)
    requires HasKey(cs, field)
    ensures multiset(SortBy(cs, field)) == multiset(cs)
  {
    if cs != [] {
      SortByPermutes(cs[1..], field);
      assert cs == [cs[0]] + cs[1..];
    }
  }

  /** The records whose key is `k`, in order. */
  function WithKey(cs: seq<Contact>, field: string, k: string): seq<Contact> {
    Filter(cs, c => field in c && c[field] == k)
  }

  lemma {:induction false} InsertStable(x: Contact, cs: seq<Contact>, field: string, k: string)
    requires field in x && HasKey(cs, field)
    ensures WithKey(Insert(x, cs, field), field, k) == WithKey([x] + cs, field, k)
  {
    if cs != [] && Below(cs[0][field], x[field]) {
      BelowIrreflexive(x[field]);
      InsertStable(x, cs[1..], field, k);
      var keep := c => field in c && c[field] == k;
      FilterAppend([cs[0]], Insert(x, cs[1..], field), keep);
      FilterAppend([x], cs[1..], keep);
      FilterAppend([cs[0]], cs[1..], keep);
      FilterAppend([x], cs, keep);
      assert cs == [cs[0]] + cs[1..];
    }
  }

  /** The sort is stable: the records sharing any one key value come out in
      the order they went in. */
  lemma {:induction false} SortByStable(cs: seq<Contact>, field: string, k: string)
    requires HasKey(cs, field)
    ensures WithKey(SortBy(cs, field), field, k) == WithKey(cs, field, k)
  {
    if cs != [] {
      var keep := c => field in c && c[field] == k;
      SortByStable(cs[1..], field, k);
      InsertStable(cs[0], SortBy(cs[1..], field), field, k);
      FilterAppend([cs[0]], SortBy(cs[1..], field), keep);
      FilterAppend([cs[0]], cs[1..], keep);
      assert cs == [cs[0]] + cs[1..];
    }
  }

  lemma SortKeepsColumns(cs: seq<Contact>, field: string)
    requires HasKey(cs, field) && AllHaveColumns(cs)
    ensures AllHaveColumns(SortBy(cs, field))
  {
    var r := SortBy(cs, field);
    SortByPermutes(cs, field);
    forall i | 0 <= i < |r|
      ensures HasColumns(r[i])
    {
      assert r[i] in multiset(cs);
    }
  }

  // ------------------------------------------------------------- import_contacts

  /** `row[...]` on the first three columns raises KeyError when one is missing. */
  predicate Readable(row: Row) {
    FirstName in row && LastName in row && PhoneNumber in row
  }

  predicate AllReadable(rows: seq<Row>) {
    forall j :: 0 <= j < |rows| ==> Readable(rows[j])
  }

  /** `row.get(key, '')`. Also the value of a column of a stored contact, which
      always holds the five columns, so the default is never read for them. */
  function GetOr(row: Row, key: string): string {
    if key in row then row[key] else ""
  }

  /** Index of the row whose KeyError ends the import, or the number of rows. */
  function FirstBadRow(rows: seq<Row>): (n: nat)
    ensures n <= |rows|
    ensures forall j :: 0 <= j < n ==> Readable(rows[j])
    ensures n < |rows| ==> !Readable(rows[n])
  {
    if rows == [] || !Readable(rows[0]) then 0 else 1 + FirstBadRow(rows[1..])
  }

  /** The `add_contact` call the import makes for one row. */
  function AddRow(st: Store, row: Row): Store
    requires Readable(row)
  {
    AddTo(st, row[FirstName], row[LastName], row[PhoneNumber], GetOr(row, EmailAddress), GetOr(row, Address))
  }

  /** `add_contact` on each row, in order. */
  function AddRows(st: Store, rows: seq<Row>): Store
    requires AllReadable(rows)
    decreases |rows|
  {
    if rows == [] then st else AddRows(AddRow(st, rows[0]), rows[1..])
  }

  /** `import_contacts`: the rows before the first unreadable one are added one
      by one; the KeyError then ends the import. */
  function ImportInto(st: Store, rows: seq<Row>): Store {
    AddRows(st, rows[..FirstBadRow(rows)])
  }

  /** Adding one more row extends the run of adds by one step. */
  lemma {:induction false} AddRowsSnoc(st: Store, rows: seq<Row>, row: Row)
    requires AllReadable(rows) && Readable(row)
    ensures AllReadable(rows + [row])
    ensures AddRows(st, rows + [row]) == AddRow(AddRows(st, rows), row)
    decreases |rows|
  {
    if rows != [] {
      assert (rows + [row])[1..] == rows[1..] + [row];
      AddRowsSnoc(AddRow(st, rows[0]), rows[1..], row);
    }
  }

  /** The records the rows would add, in order: the admitted rows only. */
  function Admitted(rows: seq<Row>): seq<Contact>
    requires AllReadable(rows)
  {
    if rows == [] then []
    else
      var row := rows[0];
      (if Admit(row[PhoneNumber], GetOr(row, EmailAddress)) == Added
       then [NewContact(row[FirstName], row[LastName], row[PhoneNumber], GetOr(row, EmailAddress), GetOr(row, Address))]
       else [])
      + Admitted(rows[1..])
  }

  /** The adds append the admitted rows' records after the existing ones; a
      rejected row is skipped and the rows after it are still added. Each added
      record costs one save and one log line. */
  lemma {:induction false} AddRowsEffect(st: Store, rows: seq<Row>)
    requires AllReadable(rows)
    ensures AddRows(st, rows).contacts == st.contacts + Admitted(rows)
    ensures |AddRows(st, rows).saves| == |st.saves| + |Admitted(rows)|
    ensures |AddRows(st, rows).log| == |st.log| + |Admitted(rows)|
    decreases |rows|
  {
    if rows != [] {
      var row := rows[0];
      var email := GetOr(row, EmailAddress);
      var head := if Admit(row[PhoneNumber], email) == Added
        then [NewContact(row[FirstName], row[LastName], row[PhoneNumber], email, GetOr(row, Address))]
        else [];
      var next := AddRow(st, row);
      assert next.contacts == st.contacts + head;
      assert |next.saves| == |st.saves| + |head| && |next.log| == |st.log| + |head|;
      assert Admitted(rows) == head + Admitted(rows[1..]);
      AddRowsEffect(next, rows[1..]);
      AppendAssociative(st.contacts, head, Admitted(rows[1..]));
    }
  }

  /** The import's effect on the list: the admitted records of the rows before
      the first unreadable row, appended in row order. */
  lemma ImportEffect(st: Store, rows: seq<Row>)
    ensures ImportInto(st, rows).contacts == st.contacts + Admitted(rows[..FirstBadRow(rows)])
  {
    AddRowsEffect(st, rows[..FirstBadRow(rows)]);
  }

  lemma {:induction false} AddRowsKeepColumns(st: Store, rows: seq<Row>)
    requires AllReadable(rows) && AllHaveColumns(st.contacts)
    ensures AllHaveColumns(AddRows(st, rows).contacts)
    decreases |rows|
  {
    if rows != [] {
      AddRowsKeepColumns(AddRow(st, rows[0]), rows[1..]);
    }
  }
}
