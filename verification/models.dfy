/**
 * The storage records of the `users` and `entries` tables and the
 * constraints the schema declares on them: primary keys, the unique
 * username, the two-tag entry type and the owner foreign key.
 */
module Models {
  import opened Wrappers

  /** The `entry_type` enum column: exactly two tags. */
  datatype EntryType = Income | Expense

  /** The tag's name as stored and sent on the wire. */
  function TypeName(t: EntryType): (name: string)
    ensures name == "Income" || name == "Expense"
  {
    match t
    case Income => "Income"
    case Expense => "Expense"
  }

  /** Read a tag name; the inverse of `TypeName`. */
  function ParseEntryType(s: string): (r: Option<EntryType>)
    ensures r.Some? ==> TypeName(r.value) == s
    ensures r.None? ==> forall t :: TypeName(t) != s
  {
    if s == "Income" then Some(Income)
    else if s == "Expense" then Some(Expense)
    else None
  }

  lemma TypeNameRoundTrip(t: EntryType)
    ensures ParseEntryType(TypeName(t)) == Some(t)
  {
  }

  /** A calendar date: year, month and day, with no time component. */
  datatype Date = Date(year: int, month: int, day: int)

  predicate IsLeapYear(y: int)
  {
    y % 4 == 0 && (y % 100 != 0 || y % 400 == 0)
  }

  /** The number of days in month `m` of year `y`: 28 or 29 for February, 30 for the four short months, else 31. */
  function DaysInMonth(y: int, m: int): (n: int)
    requires 1 <= m <= 12
    ensures 28 <= n <= 31
    ensures n == 28 <==> m == 2 && !IsLeapYear(y)
    ensures n == 29 <==> m == 2 && IsLeapYear(y)
    ensures n == 30 <==> m in {4, 6, 9, 11}
  {
    if m == 2 then (if IsLeapYear(y) then 29 else 28)
    else if m == 4 || m == 6 || m == 9 || m == 11 then 30
    else 31
  }

  /** A date that exists in the proleptic Gregorian calendar, years 1 to 9999. */
  predicate IsCalendarDate(d: Date)
  {
    1 <= d.year <= 9999 && 1 <= d.month <= 12 && 1 <= d.day <= DaysInMonth(d.year, d.month)
  }

  type CalendarDate = d: Date | IsCalendarDate(d) witness Date(1970, 1, 1)

  /** The `amount` Float column: carried unchanged, never inspected. */
  type Amount = real

  /** A row of `users`. */
  datatype User = User(id: int, username: string, passwordHash: string)

  /** A row of `entries`; `kind` is the `type` column. */
  datatype Entry = Entry(id: int, date: CalendarDate, kind: EntryType, category: string,
                         amount: Amount, userId: int)

  predicate UniqueUserIds(us: seq<User>)
  {
    forall i, j :: 0 <= i < j < |us| ==> us[i].id != us[j].id
  }

  predicate UniqueUsernames(us: seq<User>)
  {
    forall i, j :: 0 <= i < j < |us| ==> us[i].username != us[j].username
  }

  predicate HasUsername(us: seq<User>, name: string)
  {
    exists i :: 0 <= i < |us| && us[i].username == name
  }

  predicate HasUser(us: seq<User>, id: int)
  {
    exists i :: 0 <= i < |us| && us[i].id == id
  }

  predicate UniqueEntryIds(es: seq<Entry>)
  {
    forall i, j :: 0 <= i < j < |es| ==> es[i].id != es[j].id
  }

  /** The `user_id` foreign key: every entry's owner is a row of `users`. */
  predicate OwnersExist(us: seq<User>, es: seq<Entry>)
  {
    forall k :: 0 <= k < |es| ==> HasUser(us, es[k].userId)
  }

  predicate TablesValid(us: seq<User>, es: seq<Entry>)
  {
    UniqueUserIds(us) && UniqueUsernames(us) && UniqueEntryIds(es) && OwnersExist(us, es)
  }

  /** Adding a user keeps every existing owner reference valid. */
  lemma OwnersExistAddUser(us: seq<User>, es: seq<Entry>, u: User)
    requires OwnersExist(us, es)
    ensures OwnersExist(us + [u], es)
  {
    forall k | 0 <= k < |es|
      ensures HasUser(us + [u], es[k].userId)
    {
      var i :| 0 <= i < |us| && us[i].id == es[k].userId;
      assert (us + [u])[i] == us[i];
    }
  }

  /** Removing one entry keeps the table constraints on the remaining entries. */
  lemma TablesValidRemoveEntry(us: seq<User>, es: seq<Entry>, i: nat)
    requires i < |es|
    requires TablesValid(us, es)
    ensures TablesValid(us, es[..i] + es[i + 1..])
  {
  }
}
