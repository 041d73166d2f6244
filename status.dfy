/**
 * Cargo records after cleaning and the three status filters of app.py lines
 * 106-108 (shipped, on the pier, in transit).
 */
module Status {
  import opened Common
  import opened Strings
  import opened Cells

  /**
   * One row of the cleaned sheet, with the fields the analyses read: the
   * vessel and client (cleaned text) and the two parsed dates.
   */
  datatype Record = Record(vessel: string, client: string, arrival: Option<Date>, shipment: Option<Date>)

  /**
   * A row as the loader leaves it: the text columns through `safe_str_convert`
   * (lines 91-95) and the two date columns through `parse_date` (lines 70-71).
   */
  function CleanRecord(vessel: Cell, client: Cell, arrival: Cell, shipment: Cell,
                       fallback: string -> Option<Date>): Record
  {
    Record(SafeStr(vessel), SafeStr(client), ParseDate(arrival, fallback), ParseDate(shipment, fallback))
  }

  datatype CargoStatus = Shipped | OnPier | InTransit

  /** The boolean mask each status filter applies (lines 106, 107 and 108). */
  predicate InStatus(r: Record, k: CargoStatus) {
    match k
    case Shipped => r.shipment.Some?
    case OnPier => r.arrival.Some? && r.shipment.None?
    case InTransit => r.arrival.None? && r.shipment.None?
  }

  /** The status of one record, as a total classifier. */
  function StatusOf(r: Record): CargoStatus {
    if r.shipment.Some? then Shipped
    else if r.arrival.Some? then OnPier
    else InTransit
  }

  /**
   * Exactly one mask holds for each record, and it is the classifier's: a
   * record with a shipment date is shipped whatever its arrival date, one with
   * only an arrival date is on the pier, one with neither is in transit.
   */
  lemma ExactlyOneStatus(r: Record, k: CargoStatus)
    ensures InStatus(r, k) <==> k == StatusOf(r)
    ensures r.shipment.Some? ==> StatusOf(r) == Shipped
    ensures r.shipment.None? && r.arrival.Some? ==> StatusOf(r) == OnPier
    ensures r.shipment.None? && r.arrival.None? ==> StatusOf(r) == InTransit
  {
  }

  /** `df[mask]`: the records a status filter keeps, in their original order. */
  function Select(rs: seq<Record>, k: CargoStatus): (out: seq<Record>)
    ensures |out| <= |rs|
    ensures forall x :: x in out <==> x in rs && StatusOf(x) == k
  {
    if rs == [] then []
    else
      var tail := Select(rs[1..], k);
      assert forall x :: x in rs <==> x == rs[0] || x in rs[1..];
      if InStatus(rs[0], k) then [rs[0]] + tail else tail
  }

  /** A filter keeps a single record exactly when the record has that status. */
  lemma SelectOne(r: Record, k: CargoStatus)
    ensures Select([r], k) == if StatusOf(r) == k then [r] else []
  {
    ExactlyOneStatus(r, k);
    assert [r][1..] == [];
  }

  /**
   * Filtering two parts of a sheet one after the other is filtering the whole
   * sheet. With `SelectOne`, this fixes the filtered table record by record:
   * the kept records keep their order and their multiplicity.
   */
  lemma {:induction false} SelectAppend(a: seq<Record>, b: seq<Record>, k: CargoStatus)
    ensures Select(a + b, k) == Select(a, k) + Select(b, k)
    decreases |a|
  {
    if a == [] {
      assert a + b == b;
    } else {
      assert (a + b)[0] == a[0] && (a + b)[1..] == a[1..] + b;
      SelectAppend(a[1..], b, k);
    }
  }

  /** The first record goes to the filtered table of its own status and to no other. */
  lemma SelectFirst(rs: seq<Record>, k: CargoStatus)
    requires rs != []
    ensures multiset(Select(rs, k))
         == (if StatusOf(rs[0]) == k then multiset{rs[0]} else multiset{}) + multiset(Select(rs[1..], k))
  {
    ExactlyOneStatus(rs[0], k);
  }

  /**
   * `shipped`, `on_pier` and `in_transit` split the sheet: together they hold
   * every record exactly as often as the sheet does.
   */
  lemma {:induction false} StatusesPartition(rs: seq<Record>)
    ensures multiset(Select(rs, Shipped)) + multiset(Select(rs, OnPier)) + multiset(Select(rs, InTransit))
         == multiset(rs)
  {
    if rs != [] {
      StatusesPartition(rs[1..]);
      SelectFirst(rs, Shipped);
      SelectFirst(rs, OnPier);
      SelectFirst(rs, InTransit);
      assert multiset(rs) == multiset{rs[0]} + multiset(rs[1..]) by {
        assert rs == [rs[0]] + rs[1..];
      }
    }
  }

  /** No record is in two of the three filtered tables. */
  lemma StatusesDisjoint(rs: seq<Record>, k1: CargoStatus, k2: CargoStatus, x: Record)
    requires k1 != k2
    ensures !(x in Select(rs, k1) && x in Select(rs, k2))
  {
  }

  /**
   * The status of a cleaned row, read off its raw date cells: blank cells in
   * both date columns mean in transit, a blank shipment cell and an arrival
   * cell in dd.mm.yyyy mean on the pier, and a shipment cell in dd.mm.yyyy
   * means shipped, whatever the arrival cell holds.
   */
  lemma CleanRecordStatus(vessel: Cell, client: Cell, arrival: Cell, shipment: Cell,
                          fallback: string -> Option<Date>)
    ensures var r := CleanRecord(vessel, client, arrival, shipment, fallback);
      && (IsBlank(arrival) && IsBlank(shipment) ==> StatusOf(r) == InTransit)
      && (IsBlank(shipment) && !IsBlank(arrival) && StrptimeDayMonthYear(Strip(arrival.s)).Some? ==> StatusOf(r) == OnPier)
      && (!IsBlank(shipment) && StrptimeDayMonthYear(Strip(shipment.s)).Some? ==> StatusOf(r) == Shipped)
  {
  }
}
