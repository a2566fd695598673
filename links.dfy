/** The links a user shows on their profile (the user_links table) and the
    ownership guard that every change to them passes through. */
module Links {
  import opened Common
  import opened Query

  /** A user_links row; `createdAt` is the column's default, the time of the insert. */
  datatype Link = Link(id: nat, owner: UserId, title: string, url: string, createdAt: int)

  /** What the handlers send back for a link: `RETURNING id, title, url`. */
  datatype LinkView = LinkView(id: nat, title: string, url: string)

  /** 404 LINK_NOT_FOUND: no such link, or not the caller's. */
  datatype LinkError = LinkNotFound

  /** The row `WHERE id = $1 AND user_id = $2` picks out. */
  predicate Targets(l: Link, caller: UserId, id: nat)
  {
    l.id == id && l.owner == caller
  }

  /** The ownership check: the link exists and belongs to the caller. */
  predicate Owns(rows: seq<Link>, caller: UserId, id: nat)
  {
    exists l :: l in rows && Targets(l, caller, id)
  }

  /** The SERIAL primary key: no two rows share an id. */
  predicate IdsUnique(rows: seq<Link>)
  {
    forall i, j :: 0 <= i < j < |rows| ==> rows[i].id != rows[j].id
  }

  /** The rows a delete of `id` by `caller` keeps. */
  function Survives(caller: UserId, id: nat): Link -> bool
  {
    (l: Link) => !Targets(l, caller, id)
  }

  function OwnedBy(u: UserId): Link -> bool
  {
    (l: Link) => l.owner == u
  }

  /** One user's links, in table order. */
  function LinksOf(rows: seq<Link>, u: UserId): (r: seq<Link>)
    ensures forall l :: l in r <==> l in rows && l.owner == u
  {
    Filter(rows, OwnedBy(u))
  }

  /** Keeping only some rows keeps the ids unique. */
  lemma {:induction false} FilterKeepsIdsUnique(rows: seq<Link>, keep: Link -> bool)
    requires IdsUnique(rows)
    ensures IdsUnique(Filter(rows, keep))
  {
    if rows != [] {
      var rest := rows[1..];
      assert IdsUnique(rest) by {
        forall i, j | 0 <= i < j < |rest| ensures rest[i].id != rest[j].id {
          assert rest[i] == rows[i + 1] && rest[j] == rows[j + 1];
        }
      }
      FilterKeepsIdsUnique(rest, keep);
      if keep(rows[0]) {
        var f := Filter(rest, keep);
        var r := [rows[0]] + f;
        forall i, j | 0 <= i < j < |r| ensures r[i].id != r[j].id {
          if i == 0 {
            assert r[j] in rest;
            var k :| 0 <= k < |rest| && rest[k] == r[j];
            assert rows[k + 1] == r[j];
          } else {
            assert r[i] == f[i - 1] && r[j] == f[j - 1];
          }
        }
      }
    }
  }

  // ---------------------------------------------------------------------
  // The three changes, on the table's rows

  /** addLink: a new row under a fresh id, owned by the caller. */
  function Added(rows: seq<Link>, caller: UserId, id: nat, title: string, url: string, now: int)
    : (r: seq<Link>)
    ensures |r| == |rows| + 1 && r[..|rows|] == rows
    ensures Owns(r, caller, id)
    ensures IdsUnique(rows) && (forall l :: l in rows ==> l.id != id) ==> IdsUnique(r)
  {
    var r := rows + [Link(id, caller, title, url, now)];
    assert r[|rows|] in r;
    r
  }

  /** `SET title = $1, url = $2 WHERE id = $3 AND user_id = $4` on one row. */
  function Retitled(l: Link, caller: UserId, id: nat, title: string, url: string): Link
  {
    if Targets(l, caller, id) then l.(title := title, url := url) else l
  }

  /** The UPDATE applied to every row: the targeted row gets the new title
      and url, and nothing else changes. */
  function EditRows(rows: seq<Link>, caller: UserId, id: nat, title: string, url: string): (r: seq<Link>)
    ensures |r| == |rows|
    ensures forall i :: 0 <= i < |r| ==>
      r[i].id == rows[i].id && r[i].owner == rows[i].owner && r[i].createdAt == rows[i].createdAt
    ensures forall i :: 0 <= i < |r| && Targets(rows[i], caller, id) ==> r[i].title == title && r[i].url == url
    ensures forall i :: 0 <= i < |r| && !Targets(rows[i], caller, id) ==> r[i] == rows[i]
  {
    seq(|rows|, i requires 0 <= i < |rows| => Retitled(rows[i], caller, id, title, url))
  }

  /** updateLink: the ownership check, then the UPDATE; any other id is LINK_NOT_FOUND. */
  function Edited(rows: seq<Link>, caller: UserId, id: nat, title: string, url: string)
    : (r: Result<seq<Link>, LinkError>)
    ensures r.Failure? <==> !Owns(rows, caller, id)
  {
    if Owns(rows, caller, id) then Success(EditRows(rows, caller, id, title, url)) else Failure(LinkNotFound)
  }

  /** deleteLink: the ownership check, then `DELETE … WHERE id = $1 AND user_id = $2`;
      any other id is LINK_NOT_FOUND. */
  function Removed(rows: seq<Link>, caller: UserId, id: nat): (r: Result<seq<Link>, LinkError>)
    ensures r.Failure? <==> !Owns(rows, caller, id)
    ensures r.Success? ==> forall l :: l in r.value <==> l in rows && !Targets(l, caller, id)
    ensures r.Success? ==> !Owns(r.value, caller, id)
  {
    if Owns(rows, caller, id) then Success(Filter(rows, Survives(caller, id)))
    else Failure(LinkNotFound)
  }

  // ---------------------------------------------------------------------
  // What the guard buys

  /** The UPDATE leaves every other user's links as they were, in the same order. */
  lemma {:induction false} EditKeepsOthers(rows: seq<Link>, caller: UserId, id: nat, title: string, url: string, u: UserId)
    requires u != caller
    ensures LinksOf(EditRows(rows, caller, id, title, url), u) == LinksOf(rows, u)
  {
    if rows != [] {
      var e := EditRows(rows, caller, id, title, url);
      assert e[1..] == EditRows(rows[1..], caller, id, title, url);
      EditKeepsOthers(rows[1..], caller, id, title, url, u);
    }
  }

  /** No change made by one user touches another user's links. */
  lemma OthersUntouched(rows: seq<Link>, caller: UserId, id: nat, title: string, url: string, now: int, u: UserId)
    requires u != caller
    ensures Edited(rows, caller, id, title, url).Success? ==>
      LinksOf(Edited(rows, caller, id, title, url).value, u) == LinksOf(rows, u)
    ensures Removed(rows, caller, id).Success? ==>
      LinksOf(Removed(rows, caller, id).value, u) == LinksOf(rows, u)
    ensures LinksOf(Added(rows, caller, id, title, url, now), u) == LinksOf(rows, u)
  {
    EditKeepsOthers(rows, caller, id, title, url, u);
    FilterFilter(rows, Survives(caller, id), OwnedBy(u));
    FilterSnoc(rows, Link(id, caller, title, url, now), OwnedBy(u));
  }

  /** Deleting a link just added under a fresh id restores the table. */
  lemma AddThenDelete(rows: seq<Link>, caller: UserId, id: nat, title: string, url: string, now: int)
    requires forall l :: l in rows ==> l.id != id
    ensures Removed(Added(rows, caller, id, title, url, now), caller, id) == Success(rows)
  {
    var keep := Survives(caller, id);
    var l := Link(id, caller, title, url, now);
    var added := Added(rows, caller, id, title, url, now);
    assert added == rows + [l];
    assert Owns(added, caller, id);
    FilterSnoc(rows, l, keep);
    assert !keep(l);
    assert forall m :: m in rows ==> keep(m);
    FilterKeepsAll(rows, keep);
    assert Filter(added, keep) == rows;
  }

  /** With unique ids, a delete removes exactly one row. */
  lemma {:induction false} DeleteRemovesOne(rows: seq<Link>, caller: UserId, id: nat)
    requires IdsUnique(rows) && Owns(rows, caller, id)
    ensures |Removed(rows, caller, id).value| == |rows| - 1
  {
    var keep := Survives(caller, id);
    var rest := rows[1..];
    if Targets(rows[0], caller, id) {
      forall l | l in rest ensures keep(l) {
        var j :| 0 <= j < |rest| && rest[j] == l;
        assert rows[j + 1] == l;
      }
      FilterKeepsAll(rest, keep);
    } else {
      var l :| l in rows && Targets(l, caller, id);
      assert l in rest;
      DeleteRemovesOne(rest, caller, id);
    }
  }

  // ---------------------------------------------------------------------
  // The table

  class LinkTable {
    var rows: seq<Link>
    /** The next value of the SERIAL id. */
    var nextId: nat

    ghost predicate Valid()
      reads this
    {
      && 0 < nextId
      && IdsUnique(rows)
      && (forall l :: l in rows ==> l.id < nextId)
    }

    constructor ()
      ensures Valid() && rows == []
    {
      rows := [];
      nextId := 1;
    }

    /** addLink: inserts a row owned by the caller. */
    method AddLink(caller: UserId, title: string, url: string, now: int) returns (v: LinkView)
      requires Valid()
      modifies this
      ensures Valid()
      ensures v.id == old(nextId) && !Owns(old(rows), caller, v.id)
      ensures rows == Added(old(rows), caller, v.id, title, url, now)
      ensures v == LinkView(v.id, title, url)
    {
      v := LinkView(nextId, title, url);
      rows := Added(rows, caller, nextId, title, url, now);
      nextId := nextId + 1;
    }

    /** updateLink: the ownership check, then `SET title, url` on that row. */
    method UpdateLink(caller: UserId, id: nat, title: string, url: string) returns (r: Result<LinkView, LinkError>)
      requires Valid()
      modifies this`rows
      ensures Valid()
      ensures r.Failure? <==> !Owns(old(rows), caller, id)
      ensures r.Failure? ==> rows == old(rows)
      ensures r.Success? ==>
        r.value == LinkView(id, title, url) && rows == Edited(old(rows), caller, id, title, url).value
    {
      var e := Edited(rows, caller, id, title, url);
      if e.Failure? {
        return Failure(LinkNotFound);
      }
      rows := e.value;
      r := Success(LinkView(id, title, url));
    }

    /** deleteLink: the ownership check, then the DELETE. */
    method DeleteLink(caller: UserId, id: nat) returns (r: Result<(), LinkError>)
      requires Valid()
      modifies this`rows
      ensures Valid()
      ensures r.Failure? <==> !Owns(old(rows), caller, id)
      ensures r.Failure? ==> rows == old(rows)
      ensures r.Success? ==> rows == Removed(old(rows), caller, id).value && |rows| == |old(rows)| - 1
    {
      var e := Removed(rows, caller, id);
      if e.Failure? {
        return Failure(LinkNotFound);
      }
      DeleteRemovesOne(rows, caller, id);
      FilterKeepsIdsUnique(rows, Survives(caller, id));
      rows := e.value;
      r := Success(());
    }
  }
}
