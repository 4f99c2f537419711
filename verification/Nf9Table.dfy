/** The two-level table of template records (netflow9_templates.c), indexed by a 16-bit Template ID. */
module Nf9Table {
  import opened Bytes
  import opened Nf9Trec

  const TABLE_SIZE := 256

  class L2Table {
    const recs: array<Option<Trec>>

    constructor ()
      ensures fresh(recs) && recs.Length == TABLE_SIZE
      ensures forall k | 0 <= k < TABLE_SIZE :: recs[k] == None
    {
      recs := new Option<Trec>[TABLE_SIZE](_ => None);
    }
  }

  /** `Contents` is the table as a plain map keyed by the Template ID. */
  class L1Table {
    const l2Tables: array<L2Table?>
    ghost var Repr: set<object>
    ghost var Contents: map<u16, Trec>

    ghost predicate Shape()
      reads this, Repr
    {
      && this in Repr && l2Tables in Repr
      && l2Tables.Length == TABLE_SIZE
      && (forall i | 0 <= i < TABLE_SIZE && l2Tables[i] != null ::
            l2Tables[i].recs in Repr && l2Tables[i].recs.Length == TABLE_SIZE)
      && (forall i, j | 0 <= i < j < TABLE_SIZE && l2Tables[i] != null && l2Tables[j] != null ::
            l2Tables[i].recs != l2Tables[j].recs)
    }

    ghost predicate Valid()
      reads this, Repr
      ensures Valid() ==> this in Repr
    {
      Shape() && forall id: u16 :: At(id) == if id in Contents then Some(Contents[id]) else None
    }

    ghost function At(id: u16): Option<Trec>
      requires Shape()
      reads this, Repr
    {
      if l2Tables[id / TABLE_SIZE] == null then None else l2Tables[id / TABLE_SIZE].recs[id % TABLE_SIZE]
    }

    constructor ()
      ensures Valid() && fresh(Repr) && Contents == map[]
    {
      l2Tables := new L2Table?[TABLE_SIZE](_ => null);
      Contents := map[];
      new;
      Repr := {this, l2Tables};
    }

    method Find(id: u16) returns (r: Option<Trec>)
      requires Valid()
      ensures r == if id in Contents then Some(Contents[id]) else None
    {
      assert At(id) == if id in Contents then Some(Contents[id]) else None;
      var l2 := l2Tables[id / TABLE_SIZE];
      if l2 == null {
        return None;
      }
      r := l2.recs[id % TABLE_SIZE];
    }

    method Insert(id: u16, rec: Trec)
      requires Valid()
      modifies Repr
      ensures Valid() && fresh(Repr - old(Repr))
      ensures Contents == old(Contents)[id := rec]
    {
      var l1Idx := id / TABLE_SIZE;
      if l2Tables[l1Idx] == null {
        var fresh2 := new L2Table();
        l2Tables[l1Idx] := fresh2;
        Repr := Repr + {fresh2.recs};
      }
      assert Valid() by {
        assert forall k: u16 :: At(k) == old(At(k));
      }
      var l2 := l2Tables[l1Idx];
      label before:
      l2.recs[id % TABLE_SIZE] := Some(rec);
      Contents := Contents[id := rec];
      assert Shape();
      forall k: u16 | k != id ensures At(k) == old@before(At(k)) {
        assert k / TABLE_SIZE != l1Idx || k % TABLE_SIZE != id % TABLE_SIZE;
      }
    }
  }
}
