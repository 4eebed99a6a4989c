/** The event registration table (fdselect.c:68-142). */
module FdSelect {
  import opened Bytes
  import GrowArray

  datatype Event = Read | Write | AddressListChange

  /** FDSELECT_ALL, and what a set of no events stands for in fdselect_unset. */
  const ALL: set<Event> := {Read, Write, AddressListChange}

  datatype Entry<H> = Entry(fd: int, events: set<Event>, read: Option<H>, write: Option<H>)

  /** What one fdselect_set call makes of the entry of its descriptor; None when no entry is left. */
  function Updated<H>(e: Option<Entry<H>>, fd: int, events: set<Event>, func: Option<H>): Option<Entry<H>> {
    var events := if events == {} then {Read, Write} else events;
    var f := if e.Some? then e.value else Entry(fd, {}, None, None);
    var new_events := if func.Some? then f.events + events else f.events - events;
    if new_events == {} then None
    else Some(Entry(f.fd, new_events,
                    if Read in events || AddressListChange in events then func else f.read,
                    if Write in events then func else f.write))
  }

  /** Every event waited for has a function to call; the read function also serves address-list changes. */
  ghost predicate Armed<H>(e: Option<Entry<H>>) {
    e.Some? ==>
      && (Read in e.value.events || AddressListChange in e.value.events ==> e.value.read.Some?)
      && (Write in e.value.events ==> e.value.write.Some?)
  }

  /** The call clears one of the two events the read function serves while the entry still waits for the other. */
  predicate DropsOneOfTwo<H>(e: Option<Entry<H>>, events: set<Event>) {
    var ev := if events == {} then {Read, Write} else events;
    e.Some? && (
      || (AddressListChange in ev && Read !in ev && Read in e.value.events)
      || (Read in ev && AddressListChange !in ev && AddressListChange in e.value.events))
  }

  /** An update leaves an event without its function exactly when it drops one of the read function's two events. */
  lemma UpdateKeepsArmed<H>(e: Option<Entry<H>>, fd: int, events: set<Event>, func: Option<H>)
    requires Armed(e)
    ensures Armed(Updated(e, fd, events, func)) <==> func.Some? || !DropsOneOfTwo(e, events)
  {
    var ev := if events == {} then {Read, Write} else events;
    var r := Updated(e, fd, events, func);
    if func == None && e.Some? {
      var kept := e.value.events - ev;
      KeptEvents(e.value.events, ev);
      assert r.Some? <==> kept != {};
      assert r.Some? ==> r.value.events == kept;
    }
  }

  lemma KeptEvents(events: set<Event>, gone: set<Event>)
    ensures forall x :: x in events - gone <==> x in events && x !in gone
    ensures Read in events - gone || Write in events - gone || AddressListChange in events - gone <==>
      events - gone != {}
  {
    if events - gone != {} {
      var x :| x in events - gone;
      match x { case Read => case Write => case AddressListChange => }
    }
  }

  /** Both ways do it: an entry waiting for both events loses its function with either of them. */
  lemma DroppingEitherDisarms<H>(fd: int, func: H)
    ensures var e := Some(Entry(fd, {Read, AddressListChange}, Some(func), None));
      && Armed(e)
      && Updated(e, fd, {Read}, None) == Some(Entry(fd, {AddressListChange}, None, None))
      && Updated(e, fd, {AddressListChange}, None) == Some(Entry(fd, {Read}, None, None))
      && !Armed(Updated(e, fd, {Read}, None)) && !Armed(Updated(e, fd, {AddressListChange}, None))
  {
    var events: set<Event> := {Read, AddressListChange};
    assert events - {Read} == {AddressListChange} && events - {AddressListChange} == {Read};
  }

  lemma UnsetAll<H>(e: Option<Entry<H>>, fd: int)
    ensures Updated(e, fd, ALL, None) == None
  {
    var f := if e.Some? then e.value else Entry(fd, {}, None, None);
    forall ev: Event ensures ev in ALL { match ev { case Read => case Write => case AddressListChange => } }
    assert f.events - ALL == {};
  }

  class FdSelect<H> {
    var fds: seq<Entry<H>>
    var count: int
    var select_break: bool

    ghost predicate Valid()
      reads this
    {
      && count == |fds|
      && (forall i :: 0 <= i < |fds| ==> fds[i].events != {})
      && forall i, j :: 0 <= i < j < |fds| ==> fds[i].fd != fds[j].fd
    }

    /** The entry of a descriptor, the abstract value of the table. */
    ghost function Reg(fd: int): Option<Entry<H>>
      reads this
    {
      Entries(fds, fd)
    }

    constructor ()
      ensures Valid() && !select_break && forall fd :: Reg(fd) == None
    {
      fds, count, select_break := [], 0, false;
    }

    method Set(fd: int, events: set<Event>, func: Option<H>)
      requires Valid()
      modifies this
      ensures Valid() && select_break
      ensures Reg(fd) == Updated(old(Reg(fd)), fd, events, func)
      ensures forall other :: other != fd ==> Reg(other) == old(Reg(other))
    {
      hide Entries;
      select_break := true;
      var events := if events == {} then {Read, Write} else events;
      ghost var fds0 := fds;
      var i := FindFd(fd);
      if i == |fds| {
        fds := fds + [Entry(fd, {}, None, None)];
        count := count + 1;
        Appended(fds0, fds[i]);
        forall other | other != fd ensures Reg(other) == Entries(fds0, other) { SameEntry(fds0, fds, other); }
      }
      var f := fds[i];
      var new_events := if func.Some? then f.events + events else f.events - events;
      var read := if Read in events || AddressListChange in events then func else f.read;
      var write := if Write in events then func else f.write;
      Store(i, Entry(f.fd, new_events, read, write));
    }

    /** Writing back the entry at index i, or removing it when no event is left (fdselect.c:119-131). */
    method Store(i: nat, e: Entry<H>)
      requires DistinctFds(fds) && count == |fds| && i < |fds| && e.fd == fds[i].fd
      requires forall j :: 0 <= j < |fds| && j != i ==> fds[j].events != {}
      modifies this`fds, this`count
      ensures Valid()
      ensures Reg(e.fd) == if e.events == {} then None else Some(e)
      ensures forall other :: other != e.fd ==> Reg(other) == old(Reg(other))
    {
      hide Entries, GrowArray.Removed;
      ghost var fds0 := fds;
      Replaced(fds, i, e);
      fds := fds[i := e];
      ghost var fds1 := fds;
      if e.events == {} {
        Dropped(fds, i);
        fds := GrowArray.Removed(fds, i, 1);
        count := count - 1;
        EntriesMissing(fds, e.fd);
        assert forall x :: x in fds ==> x in fds1 && x != e;
      } else {
        EntriesAt(fds, i);
      }
      forall other | other != e.fd ensures Reg(other) == Entries(fds0, other) {
        SameEntry(fds0, fds1, other);
        SameEntry(fds1, fds, other);
      }
    }

    /** The search loop of fdselect_set; the length of the table when there is no entry. */
    method FindFd(fd: int) returns (i: nat)
      requires Valid()
      ensures i <= |fds|
      ensures if i < |fds| then fds[i].fd == fd && Reg(fd) == Some(fds[i])
              else Reg(fd) == None && forall j :: 0 <= j < |fds| ==> fds[j].fd != fd
    {
      var k := |fds| - 1;
      while k >= 0
        invariant -1 <= k < |fds|
        invariant forall j :: k < j < |fds| ==> fds[j].fd != fd
      {
        if fds[k].fd == fd {
          EntriesAt(fds, k);
          return k;
        }
        k := k - 1;
      }
      return |fds|;
    }

    method Unset(fd: int, events: set<Event>)
      requires Valid()
      modifies this
      ensures Valid() && select_break
      ensures Reg(fd) == Updated(old(Reg(fd)), fd, if events == {} then ALL else events, None)
      ensures forall other :: other != fd ==> Reg(other) == old(Reg(other))
    {
      var events := if events == {} then ALL else events;
      select_break := true;
      Set(fd, events, None);
    }
  }

  function Entries<H>(fds: seq<Entry<H>>, fd: int): (r: Option<Entry<H>>)
    ensures r.Some? ==> r.value.fd == fd && r.value in fds
    ensures r == None ==> forall i :: 0 <= i < |fds| ==> fds[i].fd != fd
  {
    if fds == [] then None
    else if fds[|fds| - 1].fd == fd then Some(fds[|fds| - 1])
    else Entries(fds[..|fds| - 1], fd)
  }

  ghost predicate DistinctFds<H>(fds: seq<Entry<H>>) {
    forall i, j :: 0 <= i < j < |fds| ==> fds[i].fd != fds[j].fd
  }

  lemma EntriesMissing<H>(fds: seq<Entry<H>>, fd: int)
    requires forall i :: 0 <= i < |fds| ==> fds[i].fd != fd
    ensures Entries(fds, fd) == None
  {}

  lemma EntriesAt<H>(fds: seq<Entry<H>>, i: nat)
    requires DistinctFds(fds) && i < |fds|
    ensures Entries(fds, fds[i].fd) == Some(fds[i])
  {
    var r := Entries(fds, fds[i].fd);
    var j :| 0 <= j < |fds| && fds[j] == r.value;
  }

  lemma Appended<H>(fds: seq<Entry<H>>, e: Entry<H>)
    requires DistinctFds(fds) && forall j :: 0 <= j < |fds| ==> fds[j].fd != e.fd
    ensures DistinctFds(fds + [e]) && forall x :: x in fds + [e] <==> x in fds || x == e
  {}

  lemma Replaced<H>(fds: seq<Entry<H>>, i: nat, e: Entry<H>)
    requires DistinctFds(fds) && i < |fds| && fds[i].fd == e.fd
    ensures DistinctFds(fds[i := e])
    ensures forall x: Entry<H> :: x.fd != e.fd ==> (x in fds[i := e] <==> x in fds)
  {
    forall x: Entry<H> | x in fds && x.fd != e.fd ensures x in fds[i := e] {
      var j :| 0 <= j < |fds| && fds[j] == x;
      assert fds[i := e][j] == x;
    }
  }

  lemma Dropped<H>(fds: seq<Entry<H>>, i: nat)
    requires DistinctFds(fds) && i < |fds|
    ensures var r := GrowArray.Removed(fds, i, 1);
      && |r| == |fds| - 1
      && DistinctFds(r) && (forall j :: 0 <= j < |r| ==> r[j].fd != fds[i].fd)
      && (forall x :: x in r ==> x in fds)
      && forall x: Entry<H> :: x.fd != fds[i].fd ==> (x in r <==> x in fds)
  {
    var r := fds[..i] + fds[i + 1..];
    forall x: Entry<H> | x in fds && x.fd != fds[i].fd ensures x in r {
      var j :| 0 <= j < |fds| && fds[j] == x;
      assert r[if j < i then j else j - 1] == x;
    }
  }

  lemma EntriesHas<H>(fds: seq<Entry<H>>, e: Entry<H>)
    requires DistinctFds(fds) && e in fds
    ensures Entries(fds, e.fd) == Some(e)
  {
    var i :| 0 <= i < |fds| && fds[i] == e;
    EntriesAt(fds, i);
  }

  /** Tables with the same entry, if any, for a descriptor. */
  lemma SameEntry<H>(fds: seq<Entry<H>>, fds': seq<Entry<H>>, fd: int)
    requires DistinctFds(fds) && DistinctFds(fds')
    requires forall e: Entry<H> :: e.fd == fd ==> (e in fds <==> e in fds')
    ensures Entries(fds, fd) == Entries(fds', fd)
  {
    hide Entries, DistinctFds;
    if Entries(fds, fd).Some? { EntriesHas(fds', Entries(fds, fd).value); }
    else if Entries(fds', fd).Some? { EntriesHas(fds, Entries(fds', fd).value); }
  }
}
