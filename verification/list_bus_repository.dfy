/** The in-memory bus repository: an ordered slice of buses with no
    constraint at all. Lookups scan from the front and report absence as a
    missing record, never as an error; `Add` refuses only an id already in
    the list and then always stores the bus under a newly generated id, so
    register numbers may repeat. */
module ListBusRepository {
  import opened Outcomes
  import opened Text
  import opened Tables
  import opened Store

  /** The register number as the case-insensitive lookup compares it. */
  function UpperNumber(b: Bus): string
  {
    ToUpper(b.registerNumber)
  }

  /** The result of `Add`: the error, the list, and the caller's bus as `Add`
      leaves it (with the generated id written in on success). */
  datatype Added = Added(status: Status, list: seq<Bus>, record: Bus)

  function GetById(list: seq<Bus>, id: Id): (r: Option<Bus>)
    ensures r.None? <==> id !in Column(list, BusId)
    ensures r.Some? ==> r.value == list[IndexOf(list, BusId, id)] && r.value.id == id
  {
    Lookup(list, BusId, id)
  }

  /** The first bus whose register number equals `number` after both are
      upper-cased. */
  function GetByNumber(list: seq<Bus>, number: string): (r: Option<Bus>)
    ensures r.None? <==> forall i :: 0 <= i < |list| ==> ToUpper(list[i].registerNumber) != ToUpper(number)
    ensures r.Some? ==> ToUpper(r.value.registerNumber) == ToUpper(number)
    ensures r.Some? ==> exists i :: (0 <= i < |list| && r.value == list[i] &&
              forall j :: 0 <= j < i ==> ToUpper(list[j].registerNumber) != ToUpper(number))
  {
    var i := IndexOf(list, UpperNumber, ToUpper(number));
    assert forall j :: 0 <= j < |list| ==> UpperNumber(list[j]) == ToUpper(list[j].registerNumber);
    if i == |list| then None else Some(list[i])
  }

  /** The list itself, every bus once, in order of insertion. */
  function GetAll(list: seq<Bus>): (r: seq<Bus>)
    ensures |r| == |list|
    ensures forall b :: b in r <==> b in list
  {
    list
  }

  /** Refuses a bus whose id is already listed; otherwise overwrites the id
      with the generated one, whatever the caller put there, and appends. */
  function Add(list: seq<Bus>, bus: Bus, freshId: Id): (r: Added)
    requires FreshFor(freshId, list, BusId)
    ensures bus.id in Column(list, BusId) <==> r.status.Failed?
    ensures r.status.Failed? ==> r == Added(Failed(AlreadyExists(BusKind)), list, bus)
    ensures r.status == Done ==> r.record == bus.(id := freshId)
    ensures r.status == Done ==> r.list == list + [r.record]
  {
    if GetById(list, bus.id).Some? then Added(Failed(AlreadyExists(BusKind)), list, bus)
    else
      var row := bus.(id := freshId);
      Added(Done, list + [row], row)
  }

  /** Removes the first bus with the id, keeping the order of the rest. */
  function DeleteById(list: seq<Bus>, id: Id): (r: (Status, seq<Bus>))
    ensures id !in Column(list, BusId) ==> r == (Failed(NotFound(BusKind)), list)
    ensures id in Column(list, BusId) ==> r.0 == Done && |r.1| == |list| - 1
    ensures id in Column(list, BusId) ==> exists i :: (0 <= i < |list| && list[i].id == id &&
              (forall j :: 0 <= j < i ==> list[j].id != id) && r.1 == list[..i] + list[i + 1..])
  {
    var i := IndexOf(list, BusId, id);
    if i == |list| then (Failed(NotFound(BusKind)), list)
    else (Done, RemoveAt(list, i))
  }

  /** Replaces the first bus with the bus's id; an unknown id changes nothing
      and is not reported. */
  function UpdateById(list: seq<Bus>, bus: Bus): (r: seq<Bus>)
    ensures bus.id !in Column(list, BusId) ==> r == list
    ensures |r| == |list|
    ensures bus.id in Column(list, BusId) ==> exists i :: (0 <= i < |list| && list[i].id == bus.id &&
              (forall j :: 0 <= j < i ==> list[j].id != bus.id) && r == list[i := bus])
  {
    var i := IndexOf(list, BusId, bus.id);
    if i == |list| then list else list[i := bus]
  }

  /** The register-number lookup ignores case: any two numbers with the same
      upper-case form find the same bus. */
  lemma GetByNumberIgnoresCase(list: seq<Bus>, a: string, b: string)
    requires ToUpper(a) == ToUpper(b)
    ensures GetByNumber(list, a) == GetByNumber(list, b)
  {
  }

  /** In particular, looking up the upper-cased number is the same as looking
      up the number. */
  lemma GetByUpperNumber(list: seq<Bus>, number: string)
    ensures GetByNumber(list, ToUpper(number)) == GetByNumber(list, number)
  {
    ToUpperIdempotent(number);
  }

  /** A successful `Add` stores the bus under the generated id, where
      `GetById` finds it, and keeps every earlier bus in place. */
  lemma AddThenGet(list: seq<Bus>, bus: Bus, freshId: Id)
    requires FreshFor(freshId, list, BusId)
    requires bus.id !in Column(list, BusId)
    ensures var r := Add(list, bus, freshId);
            && r.status == Done
            && GetById(r.list, freshId) == Some(bus.(id := freshId))
            && r.list[..|list|] == list
            && r.record in GetAll(r.list)
  {
    var r := Add(list, bus, freshId);
    IndexOfAppend(list, BusId, r.record, freshId);
  }

  /** Register numbers are not checked: a bus whose number another bus
      already has (in any case) is added, and the number lookup keeps
      returning the earlier bus. */
  lemma DuplicateNumberAccepted(list: seq<Bus>, bus: Bus, freshId: Id, i: nat)
    requires FreshFor(freshId, list, BusId)
    requires bus.id !in Column(list, BusId)
    requires i < |list| && UpperNumber(list[i]) == UpperNumber(bus)
    ensures var r := Add(list, bus, freshId);
            && r.status == Done
            && GetByNumber(r.list, bus.registerNumber) == GetByNumber(list, bus.registerNumber)
            && GetByNumber(r.list, bus.registerNumber).Some?
  {
    var r := Add(list, bus, freshId);
    assert UpperNumber(list[i]) == ToUpper(bus.registerNumber);
    IndexOfAppend(list, UpperNumber, r.record, ToUpper(bus.registerNumber));
  }

  /** Ids stay distinct under every operation, since the only new id is the
      generated one and `UpdateById` keeps the id it replaces. */
  lemma WritesKeepIdsDistinct(list: seq<Bus>, bus: Bus, freshId: Id, id: Id)
    requires Unique(list, BusId)
    requires FreshFor(freshId, list, BusId)
    ensures Unique(Add(list, bus, freshId).list, BusId)
    ensures Unique(DeleteById(list, id).1, BusId)
    ensures Unique(UpdateById(list, bus), BusId)
  {
    AddKeepsIdsDistinct(list, bus, freshId);
    DeleteKeepsIdsDistinct(list, id);
    UpdateKeepsIdsDistinct(list, bus);
  }

  lemma AddKeepsIdsDistinct(list: seq<Bus>, bus: Bus, freshId: Id)
    requires Unique(list, BusId)
    requires FreshFor(freshId, list, BusId)
    ensures Unique(Add(list, bus, freshId).list, BusId)
  {
    var a := Add(list, bus, freshId);
    if a.status == Done {
      AppendKeepsUnique(list, BusId, a.record);
    }
  }

  lemma DeleteKeepsIdsDistinct(list: seq<Bus>, id: Id)
    requires Unique(list, BusId)
    ensures Unique(DeleteById(list, id).1, BusId)
  {
    if id in Column(list, BusId) {
      WithoutUniqueRemovesOne(list, BusId, id);
      FilterKeepsUnique(list, KeyIsNot(BusId, id), BusId);
    }
  }

  lemma UpdateKeepsIdsDistinct(list: seq<Bus>, bus: Bus)
    requires Unique(list, BusId)
    ensures Unique(UpdateById(list, bus), BusId)
  {
    var u := UpdateById(list, bus);
    assert forall i :: 0 <= i < |u| ==> u[i].id == list[i].id;
  }

  /** Deleting the bus just added restores the list: the two operations are
      inverse. */
  lemma AddThenDelete(list: seq<Bus>, bus: Bus, freshId: Id)
    requires FreshFor(freshId, list, BusId)
    requires bus.id !in Column(list, BusId)
    ensures DeleteById(Add(list, bus, freshId).list, freshId) == (Done, list)
  {
    var r := Add(list, bus, freshId);
    IndexOfAppend(list, BusId, r.record, freshId);
    assert RemoveAt(r.list, |list|) == list;
  }

  /** With distinct ids, a deleted bus is gone and nothing else is: the
      list loses exactly that one bus. */
  lemma DeleteThenGet(list: seq<Bus>, id: Id)
    requires Unique(list, BusId)
    requires id in Column(list, BusId)
    ensures GetById(DeleteById(list, id).1, id).None?
    ensures multiset(DeleteById(list, id).1) + multiset{list[IndexOf(list, BusId, id)]} == multiset(list)
  {
    WithoutUniqueRemovesOne(list, BusId, id);
    var i := IndexOf(list, BusId, id);
    assert list == list[..i] + [list[i]] + list[i + 1..];
  }

  /** With distinct ids, `GetAll` no longer lists a deleted bus. */
  lemma DeleteThenNotListed(list: seq<Bus>, id: Id)
    requires Unique(list, BusId)
    requires id in Column(list, BusId)
    ensures forall b :: b in GetAll(DeleteById(list, id).1) ==> b.id != id
  {
    DeleteThenGet(list, id);
    var d := DeleteById(list, id).1;
    assert forall b :: b in d ==> BusId(b) in Column(d, BusId);
  }

  /** With distinct ids, an updated bus is found exactly as given. */
  lemma UpdateThenGet(list: seq<Bus>, bus: Bus)
    requires Unique(list, BusId)
    requires bus.id in Column(list, BusId)
    ensures GetById(UpdateById(list, bus), bus.id) == Some(bus)
  {
    var i := IndexOf(list, BusId, bus.id);
    var u := UpdateById(list, bus);
    assert u[i] == bus;
    assert IndexOf(u, BusId, bus.id) == i;
  }
}
