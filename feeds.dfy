/**
 * The remote feed service the script publishes to, as an in-memory store.
 *
 * The script's client talks to two feeds, one for quote texts and one for colours.
 * Each feed lists its data points newest first; a data point has a service-assigned
 * id and a string value. Sending a value adds a new data point at the head of the
 * listing; deleting by id removes that data point.
 */
module Feeds {

  datatype Entry = Entry(id: nat, value: string)

  datatype FeedKey = TextFeed | ColorFeed

  /** The values of a listing, in listing order. */
  function Values(es: seq<Entry>): seq<string> {
    seq(|es|, k requires 0 <= k < |es| => es[k].value)
  }

  lemma ValuesCons(e: Entry, es: seq<Entry>)
    ensures Values([e] + es) == [e.value] + Values(es)
  {
  }

  /** No two data points of a listing share an id. */
  predicate UniqueIds(es: seq<Entry>) {
    forall i, j :: 0 <= i < j < |es| ==> es[i].id != es[j].id
  }

  /** The listing after deleting the data points with the given id. */
  function RemoveId(es: seq<Entry>, id: nat): (r: seq<Entry>)
    ensures |r| <= |es|
  {
    if es == [] then []
    else if es[0].id == id then RemoveId(es[1..], id)
    else [es[0]] + RemoveId(es[1..], id)
  }

  /** Deleting removes the data points with that id and keeps every other one. */
  lemma {:induction false} RemoveIdMembers(es: seq<Entry>, id: nat)
    ensures forall e :: e in RemoveId(es, id) <==> e in es && e.id != id
  {
    if es != [] {
      RemoveIdMembers(es[1..], id);
      assert es == [es[0]] + es[1..];
    }
  }

  /** The tail of a listing with distinct ids has distinct ids, none equal to the head's. */
  lemma UniqueTail(es: seq<Entry>)
    requires UniqueIds(es)
    requires es != []
    ensures UniqueIds(es[1..])
    ensures forall e :: e in es[1..] ==> e.id != es[0].id
  {
    var tail := es[1..];
    forall i, j | 0 <= i < j < |tail|
      ensures tail[i].id != tail[j].id
    {
      assert tail[i] == es[i + 1] && tail[j] == es[j + 1];
    }
    forall e | e in tail
      ensures e.id != es[0].id
    {
      var m :| 0 <= m < |tail| && tail[m] == e;
      assert es[m + 1] == e;
    }
  }

  /** Putting an entry in front of a listing with distinct ids that lacks its id keeps them distinct. */
  lemma UniqueCons(e: Entry, es: seq<Entry>)
    requires UniqueIds(es)
    requires forall x :: x in es ==> x.id != e.id
    ensures UniqueIds([e] + es)
  {
    var r := [e] + es;
    forall i, j | 0 <= i < j < |r|
      ensures r[i].id != r[j].id
    {
      assert r[j] == es[j - 1];
      if i > 0 {
        assert r[i] == es[i - 1];
      }
    }
  }

  /** Deleting keeps the ids of a listing distinct. */
  lemma {:induction false} RemoveIdUnique(es: seq<Entry>, id: nat)
    requires UniqueIds(es)
    ensures UniqueIds(RemoveId(es, id))
  {
    if es != [] {
      UniqueTail(es);
      RemoveIdUnique(es[1..], id);
      if es[0].id != id {
        var rest := RemoveId(es[1..], id);
        assert RemoveId(es, id) == [es[0]] + rest;
        RemoveIdMembers(es[1..], id);
        UniqueCons(es[0], rest);
      }
    }
  }

  /** With distinct ids, deleting the id of the entry at `k` removes exactly that entry. */
  lemma {:induction false} RemoveIdAt(es: seq<Entry>, k: nat)
    requires UniqueIds(es)
    requires k < |es|
    ensures RemoveId(es, es[k].id) == es[..k] + es[k + 1..]
  {
    var tail := es[1..];
    UniqueTail(es);
    if k == 0 {
      assert RemoveId(es, es[0].id) == RemoveId(tail, es[0].id);
      RemoveIdAbsent(tail, es[0].id);
    } else {
      var id := es[k].id;
      assert es[0].id != id;
      assert tail[k - 1] == es[k];
      RemoveIdAt(tail, k - 1);
      assert RemoveId(es, id) == [es[0]] + RemoveId(tail, id);
      assert tail[..k - 1] == es[1..k] && tail[k..] == es[k + 1..];
      assert [es[0]] + es[1..k] == es[..k];
      assert [es[0]] + (es[1..k] + es[k + 1..]) == ([es[0]] + es[1..k]) + es[k + 1..];
    }
  }

  /** Deleting an id that no data point carries leaves the listing as it was. */
  lemma {:induction false} RemoveIdAbsent(es: seq<Entry>, id: nat)
    requires forall e :: e in es ==> e.id != id
    ensures RemoveId(es, id) == es
  {
    if es != [] {
      assert es[0] in es;
      assert forall e :: e in es[1..] ==> e in es;
      RemoveIdAbsent(es[1..], id);
      assert [es[0]] + es[1..] == es;
    }
  }

  /** A number above every id of a listing. */
  function IdBound(es: seq<Entry>): (n: nat)
    ensures forall e :: e in es ==> e.id < n
  {
    if es == [] then 0
    else
      var m := IdBound(es[1..]);
      assert forall e :: e in es ==> e == es[0] || e in es[1..];
      if es[0].id < m then m else es[0].id + 1
  }

  /** The two feeds of the service, with the id counter the service draws fresh ids from. */
  class FeedStore {
    var text: seq<Entry>
    var color: seq<Entry>
    var nextId: nat

    /** Ids are distinct within each feed and every one was drawn from the counter. */
    ghost predicate Valid()
      reads this
    {
      && UniqueIds(text)
      && UniqueIds(color)
      && (forall e :: e in text ==> e.id < nextId)
      && (forall e :: e in color ==> e.id < nextId)
    }

    /** The current listing of a feed, newest first. */
    function Listed(feed: FeedKey): seq<Entry>
      reads this
    {
      if feed == TextFeed then text else color
    }

    /** Connects to the two feeds as the service holds them: any listings with distinct ids.
        Fresh ids are drawn above every id already in use. */
    constructor (text0: seq<Entry>, color0: seq<Entry>)
      requires UniqueIds(text0) && UniqueIds(color0)
      ensures Valid()
      ensures text == text0 && color == color0
    {
      text := text0;
      color := color0;
      var a := IdBound(text0);
      var b := IdBound(color0);
      nextId := if a < b then b else a;
    }

    /** Retrieves a feed's data points, newest first. */
    method List(feed: FeedKey) returns (es: seq<Entry>)
      requires Valid()
      ensures UniqueIds(es)
      ensures es == Listed(feed)
    {
      es := if feed == TextFeed then text else color;
    }

    /** Sends a value to a feed: it becomes the newest data point, under a fresh id. */
    method Append(feed: FeedKey, value: string)
      requires Valid()
      modifies this
      ensures Valid()
      ensures nextId == old(nextId) + 1
      ensures Listed(feed) == [Entry(old(nextId), value)] + old(Listed(feed))
      ensures feed == TextFeed ==> color == old(color)
      ensures feed == ColorFeed ==> text == old(text)
    {
      var e := Entry(nextId, value);
      if feed == TextFeed {
        text := [e] + text;
      } else {
        color := [e] + color;
      }
      nextId := nextId + 1;
    }

    /** Deletes the data points of a feed that carry the given id. */
    method Delete(feed: FeedKey, id: nat)
      requires Valid()
      modifies this
      ensures Valid()
      ensures nextId == old(nextId)
      ensures Listed(feed) == RemoveId(old(Listed(feed)), id)
      ensures feed == TextFeed ==> color == old(color)
      ensures feed == ColorFeed ==> text == old(text)
    {
      if feed == TextFeed {
        RemoveIdUnique(text, id);
        RemoveIdMembers(text, id);
        text := RemoveId(text, id);
      } else {
        RemoveIdUnique(color, id);
        RemoveIdMembers(color, id);
        color := RemoveId(color, id);
      }
    }
  }
}
