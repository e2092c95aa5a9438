/** The plug requests of a session: a linked list to which new requests are prepended. */
module Plugs {
  import opened Text

  const MIN_SIZE_ID := 2
  const MAX_SIZE_ID := 200

  /** One request: export expdir into impdir for the application impid. */
  datatype Item = Item(expdir: string, impid: string, impdir: string)

  predicate GoodSizes(i: Item) {
    && 1 <= |i.expdir| <= MAX_SIZE_PATH && 1 <= |i.impdir| <= MAX_SIZE_PATH
    && MIN_SIZE_ID <= |i.impid| <= MAX_SIZE_ID
  }

  /** A list node. It never changes once linked, so lists may share their tails. */
  class Plug {
    const next: Plug?
    const item: Item
    ghost const items: seq<Item>  // the items from this node on

    constructor (item: Item, next: Plug?)
      requires List(next)
      ensures this.item == item && this.next == next
      ensures Linked() && items == [item] + Items(next)
    {
      this.item := item;
      this.next := next;
      this.items := [item] + Items(next);
    }

    ghost predicate Linked()
      decreases |items|
    {
      && items == [item] + (if next == null then [] else next.items)
      && (next != null ==> next.Linked())
    }
  }

  ghost predicate List(p: Plug?) {
    p == null || p.Linked()
  }

  ghost function Items(p: Plug?): seq<Item> {
    if p == null then [] else p.items
  }

  /** Following the list from its head meets the items in order. */
  lemma ListStep(p: Plug)
    requires p.Linked()
    ensures List(p.next) && Items(p) == [p.item] + Items(p.next)
  {
  }

  /** Does i agree with each criterion that is given? */
  predicate Matches(i: Item, expdir: Option<string>, impid: Option<string>, impdir: Option<string>) {
    && (expdir.Some? ==> i.expdir == expdir.value)
    && (impid.Some? ==> i.impid == impid.value)
    && (impdir.Some? ==> i.impdir == impdir.value)
  }

  class PlugSet {
    var head: Plug?

    constructor ()
      ensures Valid() && Value() == []
    {
      head := null;
    }

    ghost predicate Valid()
      reads this
    {
      List(head)
    }

    ghost function Value(): seq<Item>
      reads this
    {
      Items(head)
    }

    method Clear()
      requires Valid()
      modifies this
      ensures Valid() && Value() == []
    {
      while head != null
        invariant Valid()
        decreases |Value()|
      {
        ListStep(head);
        head := head.next;
      }
    }

    /** Prepends a request whose strings have legal sizes. */
    method Add(expdir: string, impid: string, impdir: string) returns (rc: int)
      requires Valid()
      modifies this
      ensures Valid()
      ensures var item := Item(expdir, impid, impdir);
              if GoodSizes(item) then rc == 0 && Value() == [item] + old(Value())
              else rc == -EINVAL && Value() == old(Value())
    {
      if |expdir| < 1 || |expdir| > MAX_SIZE_PATH
         || |impdir| < 1 || |impdir| > MAX_SIZE_PATH
         || |impid| < MIN_SIZE_ID || |impid| > MAX_SIZE_ID {
        return -EINVAL;
      }
      head := new Plug(Item(expdir, impid, impdir), head);
      rc := 0;
    }

    /** The first node that agrees with the given criteria. */
    method Search(expdir: Option<string>, impid: Option<string>, impdir: Option<string>) returns (plug: Plug?)
      requires Valid()
      ensures plug != null ==> plug.Linked() && Matches(plug.item, expdir, impid, impdir)
      ensures exists before :: Value() == before + Items(plug) &&
                forall i :: 0 <= i < |before| ==> !Matches(before[i], expdir, impid, impdir)
    {
      plug := head;
      ghost var before: seq<Item> := [];
      assert Value() == before + Items(plug);
      while plug != null
            && ((expdir.Some? && plug.item.expdir != expdir.value)
                || (impid.Some? && plug.item.impid != impid.value)
                || (impdir.Some? && plug.item.impdir != impdir.value))
        invariant List(plug) && Value() == before + Items(plug)
        invariant forall i :: 0 <= i < |before| ==> !Matches(before[i], expdir, impid, impdir)
        decreases |Items(plug)|
      {
        ListStep(plug);
        Associate(before, [plug.item], Items(plug.next));
        before := before + [plug.item];
        plug := plug.next;
      }
    }

    method Has(expdir: Option<string>, impid: Option<string>, impdir: Option<string>) returns (b: bool)
      requires Valid()
      ensures b <==> exists i :: 0 <= i < |Value()| && Matches(Value()[i], expdir, impid, impdir)
    {
      var plug := Search(expdir, impid, impdir);
      ghost var before :| Value() == before + Items(plug) &&
                            forall i :: 0 <= i < |before| ==> !Matches(before[i], expdir, impid, impdir);
      if plug != null {
        ListStep(plug);
        assert Value()[|before|] == plug.item;
      }
      b := plug != null;
    }
  }
}
