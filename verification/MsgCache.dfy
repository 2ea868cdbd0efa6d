/** The paged sparse cache of msgCache.go, proved against a plain map from
    sequence number to message. */
module MsgCaching {
  import opened Wire
  import opened Codec

  const MAX_PAGE_MSG := 0x10_0000
  const PAGE_INCREMENT := 16

  type Cached = map<nat, Message>
  type Slot = Option<Message>
  type Page = array<Slot>

  // ---------- the map side ----------

  function KeysFrom(m: Cached, s: nat): set<nat> {
    set k | k in m && s <= k
  }

  /** The messages at `s`, `s + 1`, ... up to the first number the map lacks. */
  function RunFrom(m: Cached, s: nat): (r: seq<Message>)
    ensures forall n :: s <= n < s + |r| ==> n in m && r[n - s] == m[n]
    ensures s + |r| !in m
    decreases |KeysFrom(m, s)|
  {
    if s !in m then [] else
    assert KeysFrom(m, s) == KeysFrom(m, s + 1) + {s};
    [m[s]] + RunFrom(m, s + 1)
  }

  /** Its two postconditions leave `RunFrom` no choice. */
  lemma RunFromUnique(m: Cached, s: nat, r: seq<Message>)
    requires forall n :: s <= n < s + |r| ==> n in m && r[n - s] == m[n]
    requires s + |r| !in m
    ensures r == RunFrom(m, s)
  {
    var q := RunFrom(m, s);
    assert |r| == |q|;
    forall i | 0 <= i < |r| ensures r[i] == q[i] {
      var n := s + i;
      assert r[n - s] == m[n] == q[n - s];
    }
  }

  lemma RunLength(m: Cached, s: nat, k: nat)
    requires forall n :: s <= n < s + k ==> n in m
    requires s + k !in m
    ensures |RunFrom(m, s)| == k
  {
  }

  /** The cache after `buf` was stored at `s`, `s + 1`, ... */
  function Stored(m: Cached, buf: seq<Message>, s: nat): (m': Cached)
    ensures forall n :: n in m' <==> n in m || s <= n < s + |buf|
    ensures forall n :: n in m' ==> m'[n] == if s <= n < s + |buf| then buf[n - s] else m[n]
    decreases |buf|
  {
    if buf == [] then m else Stored(m[s := buf[0]], buf[1..], s + 1)
  }

  // ---------- the paged side ----------

  function Lookup(m: Cached, n: nat): Slot {
    if n in m then Some(m[n]) else None
  }

  class MsgCache {
    var nPage: nat
    var maxPageNo: nat
    var msgPages: seq<Page>
    ghost var contents: Cached  // the map that the pages stand for
    ghost var Repr: set<object>  // this object and its pages

    ghost predicate Shaped()
      reads this
    {
      && nPage == |msgPages|
      && nPage % PAGE_INCREMENT == 0
      && maxPageNo < nPage
      && this in Repr
      && (forall p :: 0 <= p < nPage ==> msgPages[p] in Repr)
      && (forall p :: 0 <= p < nPage ==> msgPages[p].Length == MAX_PAGE_MSG)
      && (forall p, q :: 0 <= p < q < nPage ==> msgPages[p] != msgPages[q])
      && (forall n :: n in contents ==> n / MAX_PAGE_MSG <= maxPageNo)
    }

    ghost predicate Valid()
      reads this, Repr
    {
      && Shaped()
      && (forall p, off :: 0 <= p < nPage && 0 <= off < MAX_PAGE_MSG ==>
            msgPages[p][off] == Lookup(contents, p * MAX_PAGE_MSG + off))
    }

    constructor ()
      ensures Valid() && contents == map[]
      ensures nPage == PAGE_INCREMENT && fresh(Repr)
    {
      var pages := NewPages();
      nPage, maxPageNo, msgPages := PAGE_INCREMENT, 0, pages;
      contents := map[];
      Repr := {this} + (set p: object | p in pages);
    }

    static method NewPages() returns (pages: seq<Page>)
      ensures |pages| == PAGE_INCREMENT && fresh(pages)
      ensures forall p :: 0 <= p < |pages| ==> pages[p].Length == MAX_PAGE_MSG
      ensures forall p, q :: 0 <= p < q < |pages| ==> pages[p] != pages[q]
      ensures forall p, off :: 0 <= p < |pages| && 0 <= off < MAX_PAGE_MSG ==> pages[p][off] == None
    {
      pages := [];
      for i := 0 to PAGE_INCREMENT
        invariant |pages| == i && fresh(pages)
        invariant forall p :: 0 <= p < |pages| ==> pages[p].Length == MAX_PAGE_MSG
        invariant forall p, q :: 0 <= p < q < |pages| ==> pages[p] != pages[q]
        invariant forall p, off :: 0 <= p < |pages| && 0 <= off < MAX_PAGE_MSG ==> pages[p][off] == None
      {
        var page := new Slot[MAX_PAGE_MSG](_ => None);
        pages := pages + [page];
      }
    }

    /** Appends pages until page number `page` exists. */
    method Grow(page: nat)
      requires Valid()
      modifies this`nPage, this`msgPages, this`Repr
      ensures Valid() && page < nPage
      ensures fresh(Repr - old(Repr))
    {
      while page >= nPage
        invariant Valid() && fresh(Repr - old(Repr))
      {
        var more := NewPages();
        msgPages := msgPages + more;
        nPage := nPage + PAGE_INCREMENT;
        Repr := Repr + (set p: object | p in more);
      }
    }

    method Upset(seqNo: nat, msg: Message) returns (update: bool)
      requires Valid()
      modifies Repr
      ensures Valid() && fresh(Repr - old(Repr))
      ensures update <==> seqNo in old(contents)
      ensures contents == old(contents)[seqNo := msg]
    {
      var page, off := seqNo / MAX_PAGE_MSG, seqNo % MAX_PAGE_MSG;
      Grow(page);
      if page > maxPageNo {
        maxPageNo := page;
      }
      update := msgPages[page][off] != None;
      msgPages[page][off] := Some(msg);
      contents := contents[seqNo := msg];
    }

    method IsNil(seqNo: nat) returns (nil: bool)
      requires Valid()
      ensures nil <==> seqNo !in contents
    {
      var page, off := seqNo / MAX_PAGE_MSG, seqNo % MAX_PAGE_MSG;
      if page >= nPage {
        return true;
      }
      if msgPages[page][off] == None {
        return true;
      }
      return false;
    }

    /** The first pass of `Merge`: how long the run from (page, off) is. */
    method GetCount(page: nat, off: nat) returns (res: nat)
      requires Valid() && page < nPage && off < MAX_PAGE_MSG
      ensures res == |RunFrom(contents, page * MAX_PAGE_MSG + off)|
    {
      ghost var s := page * MAX_PAGE_MSG + off;
      var p, o := page, off;
      res := 0;
      while msgPages[p][o] != None
        invariant 0 <= p < nPage && 0 <= o < MAX_PAGE_MSG
        invariant s + res == p * MAX_PAGE_MSG + o
        invariant forall n :: s <= n < s + res ==> n in contents
        decreases nPage * MAX_PAGE_MSG - s - res
      {
        assert s + res in contents;
        res := res + 1;
        o := o + 1;
        if o >= MAX_PAGE_MSG {
          o := 0;
          p := p + 1;
          if p >= nPage {
            break;
          }
        }
      }
      assert s + res !in contents;
      RunLength(contents, s, res);
    }

    /** The second pass of `Merge`: the `cnt` messages of the run from (page, off). */
    method CopyRun(page: nat, off: nat, cnt: nat) returns (res: seq<Message>)
      requires Valid() && page < nPage && off < MAX_PAGE_MSG
      requires cnt == |RunFrom(contents, page * MAX_PAGE_MSG + off)| > 0
      ensures res == RunFrom(contents, page * MAX_PAGE_MSG + off)
    {
      ghost var s := page * MAX_PAGE_MSG + off;
      ghost var run := RunFrom(contents, s);
      var p, o, i := page, off, 0;
      res := Empties(cnt);
      while msgPages[p][o] != None
        invariant 0 <= p < nPage && 0 <= o < MAX_PAGE_MSG && s + i == p * MAX_PAGE_MSG + o
        invariant 0 <= i < cnt == |res| && forall j :: 0 <= j < i ==> res[j] == run[j]
        decreases cnt - i
      {
        ghost var n := s + i;
        assert run[n - s] == contents[n];
        res := res[i := msgPages[p][o].value];
        i := i + 1;
        if i >= cnt {
          break;
        }
        o := o + 1;
        if o >= MAX_PAGE_MSG {
          o := 0;
          p := p + 1;
        }
        assert s + i in contents;
      }
    }

    /** The run that starts at `seqNo`; `None` when the cache lacks `seqNo`. */
    method Merge(seqNo: nat) returns (ret: Option<seq<Message>>)
      requires Valid()
      ensures ret == None <==> seqNo !in contents
      ensures ret.Some? ==> ret.value == RunFrom(contents, seqNo)
    {
      var page, off := seqNo / MAX_PAGE_MSG, seqNo % MAX_PAGE_MSG;
      if page >= nPage {
        return None;
      }
      if msgPages[page][off] == None {
        return None;
      }
      var cnt := GetCount(page, off);
      var res := CopyRun(page, off, cnt);
      ret := Some(res);
    }
  }
}
