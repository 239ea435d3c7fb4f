/** The memory tracker: what it counts for each place of the program, and the blocks that are alive. */
module MemTrackers {
  import opened Options
  import opened Sequences
  import opened Hash

  const BUCKET_SIZE := 1024

  /** The address of a file name. */
  type FileName(==, 0, !new)

  /** The part of a tag that is the key: where memory was allocated. */
  datatype Site = Site(file: FileName, line: int)

  /** `MemDebugTag` */
  datatype Tag = Tag(site: Site, size: int)

  /** A piece of allocated memory, which begins with its tag. */
  class Block {
    var tag: Tag

    constructor (tag: Tag)
      ensures this.tag == tag
    {
      this.tag := tag;
    }
  }

  class AllocInfo {
    const site: Site
    var count: int
    var totalSize: int

    constructor (site: Site)
      ensures this.site == site && count == 0 && totalSize == 0
    {
      this.site, count, totalSize := site, 0, 0;
    }
  }

  function SiteOf(info: AllocInfo): Site {
    info.site
  }

  // ---------------------------------------------------------------------------------------------
  // Sums over the live blocks
  // ---------------------------------------------------------------------------------------------

  function CountOf(tags: seq<Tag>, site: Site): nat {
    if tags == [] then 0 else CountOf(tags[..|tags| - 1], site) + if tags[|tags| - 1].site == site then 1 else 0
  }

  function SizeOf(tags: seq<Tag>, site: Site): int {
    if tags == [] then 0
    else SizeOf(tags[..|tags| - 1], site) + if tags[|tags| - 1].site == site then tags[|tags| - 1].size else 0
  }

  lemma SumAppend(tags: seq<Tag>, tag: Tag, site: Site)
    ensures CountOf(tags + [tag], site) == CountOf(tags, site) + if tag.site == site then 1 else 0
    ensures SizeOf(tags + [tag], site) == SizeOf(tags, site) + if tag.site == site then tag.size else 0
  {
    assert (tags + [tag])[..|tags|] == tags;
  }

  lemma {:induction false} SumAround(a: seq<Tag>, tag: Tag, b: seq<Tag>, site: Site)
    ensures CountOf(a + [tag] + b, site) == CountOf(a + b, site) + if tag.site == site then 1 else 0
    ensures SizeOf(a + [tag] + b, site) == SizeOf(a + b, site) + if tag.site == site then tag.size else 0
  {
    if b == [] {
      assert a + [tag] + b == a + [tag] && a + b == a;
      SumAppend(a, tag, site);
    } else {
      var init, last := b[..|b| - 1], b[|b| - 1];
      SumAround(a, tag, init, site);
      assert a + [tag] + b == (a + [tag] + init) + [last] && a + b == (a + init) + [last];
      SumAppend(a + [tag] + init, last, site);
      SumAppend(a + init, last, site);
    }
  }

  datatype Totals = Totals(count: int, totalSize: int)

  /** The table has an entry for a site exactly when a live block carries it, and the entry counts those blocks and sums
      up their sizes. */
  ghost predicate Balanced(sum: map<Site, Totals>, tags: seq<Tag>) {
    forall site :: BalancedAt(sum, tags, site)
  }

  ghost predicate BalancedAt(sum: map<Site, Totals>, tags: seq<Tag>, site: Site) {
    if CountOf(tags, site) == 0 then site !in sum
    else site in sum && sum[site] == Totals(CountOf(tags, site), SizeOf(tags, site))
  }

  /** checkMalloc */
  function Charge(sum: map<Site, Totals>, tag: Tag): map<Site, Totals> {
    var was := if tag.site in sum then sum[tag.site] else Totals(0, 0);
    sum[tag.site := Totals(was.count + 1, was.totalSize + tag.size)]
  }

  /** checkFree */
  function Discharge(sum: map<Site, Totals>, tag: Tag): map<Site, Totals> {
    if tag.site !in sum then sum
    else
      var was := sum[tag.site];
      if was.count == 1 then sum - {tag.site}
      else sum[tag.site := Totals(was.count - 1, was.totalSize - tag.size)]
  }

  lemma {:induction false} NoneCounted(tags: seq<Tag>, site: Site)
    requires CountOf(tags, site) == 0
    ensures SizeOf(tags, site) == 0
  {
    if tags == [] {
    } else {
      NoneCounted(tags[..|tags| - 1], site);
    }
  }

  lemma ChargeBalanced(sum: map<Site, Totals>, tags: seq<Tag>, tag: Tag)
    requires Balanced(sum, tags)
    ensures Balanced(Charge(sum, tag), tags + [tag])
  {
    forall site ensures BalancedAt(Charge(sum, tag), tags + [tag], site) {
      assert BalancedAt(sum, tags, site);
      SumAppend(tags, tag, site);
      if CountOf(tags, site) == 0 {
        NoneCounted(tags, site);
      }
    }
  }

  lemma DischargeBalanced(sum: map<Site, Totals>, a: seq<Tag>, tag: Tag, b: seq<Tag>)
    requires Balanced(sum, a + [tag] + b)
    ensures Balanced(Discharge(sum, tag), a + b)
  {
    forall site ensures BalancedAt(Discharge(sum, tag), a + b, site) {
      assert BalancedAt(sum, a + [tag] + b, site);
      SumAround(a, tag, b, site);
    }
  }

  /** There is nothing in the table exactly when nothing is alive. */
  lemma NoLeak(sum: map<Site, Totals>, tags: seq<Tag>)
    requires Balanced(sum, tags)
    ensures sum == map[] <==> tags == []
  {
    if tags != [] {
      var tag := tags[|tags| - 1];
      assert BalancedAt(sum, tags, tag.site);
    } else {
      forall site ensures site !in sum {
        assert BalancedAt(sum, tags, site);
      }
    }
  }

  // ---------------------------------------------------------------------------------------------
  // Runs
  // ---------------------------------------------------------------------------------------------

  /** A call; live blocks are given by their place among the live ones. */
  datatype Op = Malloc(tag: Tag) | Realloc(i: nat, tag: Tag, moves: bool) | Free(i: nat)

  function Without<T>(s: seq<T>, i: nat): seq<T>
    requires i < |s|
  {
    s[..i] + s[i + 1..]
  }

  /** The tags of the live blocks after a call, if it is given a live block. */
  function TagsAfter(tags: seq<Tag>, op: Op): Option<seq<Tag>> {
    match op
    case Malloc(tag) => Some(tags + [tag])
    case Realloc(i, tag, _) => if i < |tags| then Some(Without(tags, i) + [tag]) else None
    case Free(i) => if i < |tags| then Some(Without(tags, i)) else None
  }

  function SumAfter(sum: map<Site, Totals>, tags: seq<Tag>, op: Op): map<Site, Totals>
    requires TagsAfter(tags, op).Some?
  {
    match op
    case Malloc(tag) => Charge(sum, tag)
    case Realloc(i, tag, _) => Charge(Discharge(sum, tags[i]), tag)
    case Free(i) => Discharge(sum, tags[i])
  }

  /** How many blocks the table says a site has. */
  function CountIn(sum: map<Site, Totals>, site: Site): int {
    if site in sum then sum[site].count else 0
  }

  /** And how many bytes. */
  function SizeIn(sum: map<Site, Totals>, site: Site): int {
    if site in sum then sum[site].totalSize else 0
  }

  predicate From(tag: Option<Tag>, site: Site) {
    tag.Some? && tag.value.site == site
  }

  /** One block less of the tag `lost` and one more of the tag `won`, at the same site or at two; and sites without
      blocks are not in the table. */
  ghost predicate Counted(sum: map<Site, Totals>, sum': map<Site, Totals>, lost: Option<Tag>, won: Option<Tag>) {
    forall site ::
      && CountIn(sum', site) == CountIn(sum, site) - (if From(lost, site) then 1 else 0)
                                + (if From(won, site) then 1 else 0)
      && SizeIn(sum', site) == SizeIn(sum, site) - (if From(lost, site) then lost.value.size else 0)
                               + (if From(won, site) then won.value.size else 0)
      && (site in sum' <==> CountIn(sum', site) > 0)
  }

  lemma BalancedCounts(sum: map<Site, Totals>, tags: seq<Tag>, site: Site)
    requires Balanced(sum, tags)
    ensures CountIn(sum, site) == CountOf(tags, site) && SizeIn(sum, site) == SizeOf(tags, site)
    ensures site in sum <==> CountIn(sum, site) > 0
  {
    assert BalancedAt(sum, tags, site);
    if CountOf(tags, site) == 0 {
      NoneCounted(tags, site);
    }
  }

  /** What a call does to the table, in blocks and bytes. */
  lemma StepCounts(sum: map<Site, Totals>, tags: seq<Tag>, op: Op)
    requires Balanced(sum, tags) && TagsAfter(tags, op).Some?
    ensures Counted(sum, SumAfter(sum, tags, op), if op.Malloc? then None else Some(tags[op.i]),
                    if op.Free? then None else Some(op.tag))
  {
    var sum', tags' := SumAfter(sum, tags, op), TagsAfter(tags, op).value;
    StepBalanced(sum, tags, op);
    forall site
      ensures CountIn(sum, site) == CountOf(tags, site) && SizeIn(sum, site) == SizeOf(tags, site)
      ensures CountIn(sum', site) == CountOf(tags', site) && SizeIn(sum', site) == SizeOf(tags', site)
      ensures site in sum' <==> CountIn(sum', site) > 0
      ensures CountOf(tags', site) == CountOf(tags, site) - (if !op.Malloc? && tags[op.i].site == site then 1 else 0)
                                      + (if !op.Free? && op.tag.site == site then 1 else 0)
      ensures SizeOf(tags', site)
           == SizeOf(tags, site) - (if !op.Malloc? && tags[op.i].site == site then tags[op.i].size else 0)
              + (if !op.Free? && op.tag.site == site then op.tag.size else 0)
    {
      BalancedCounts(sum, tags, site);
      BalancedCounts(sum', tags', site);
      TagsCounts(tags, op, site);
    }
  }

  lemma TagsCounts(tags: seq<Tag>, op: Op, site: Site)
    requires TagsAfter(tags, op).Some?
    ensures var tags' := TagsAfter(tags, op).value;
            && CountOf(tags', site) == CountOf(tags, site) - (if !op.Malloc? && tags[op.i].site == site then 1 else 0)
                                       + (if !op.Free? && op.tag.site == site then 1 else 0)
            && SizeOf(tags', site)
               == SizeOf(tags, site) - (if !op.Malloc? && tags[op.i].site == site then tags[op.i].size else 0)
                  + (if !op.Free? && op.tag.site == site then op.tag.size else 0)
  {
    var left := tags;
    if !op.Malloc? {
      left := Without(tags, op.i);
      assert tags == tags[..op.i] + [tags[op.i]] + tags[op.i + 1..];
      SumAround(tags[..op.i], tags[op.i], tags[op.i + 1..], site);
    }
    if !op.Free? {
      SumAppend(left, op.tag, site);
    }
  }

  function RunTags(tags: seq<Tag>, ops: seq<Op>): Option<seq<Tag>>
    decreases |ops|
  {
    if ops == [] then Some(tags)
    else
      var next := TagsAfter(tags, ops[0]);
      if next.None? then None else RunTags(next.value, ops[1..])
  }

  function RunSum(sum: map<Site, Totals>, tags: seq<Tag>, ops: seq<Op>): map<Site, Totals>
    requires RunTags(tags, ops).Some?
    decreases |ops|
  {
    if ops == [] then sum
    else RunSum(SumAfter(sum, tags, ops[0]), TagsAfter(tags, ops[0]).value, ops[1..])
  }

  lemma StepBalanced(sum: map<Site, Totals>, tags: seq<Tag>, op: Op)
    requires Balanced(sum, tags) && TagsAfter(tags, op).Some?
    ensures Balanced(SumAfter(sum, tags, op), TagsAfter(tags, op).value)
  {
    if op.Malloc? {
      ChargeBalanced(sum, tags, op.tag);
    } else {
      var i := op.i;
      assert tags == tags[..i] + [tags[i]] + tags[i + 1..];
      DischargeBalanced(sum, tags[..i], tags[i], tags[i + 1..]);
      if op.Realloc? {
        ChargeBalanced(Discharge(sum, tags[i]), Without(tags, i), op.tag);
      }
    }
  }

  /** Over any run on live blocks, the table has an entry for a site exactly when a live block carries it, with the
      number and the summed sizes of those blocks. */
  lemma {:induction false} RunBalanced(sum: map<Site, Totals>, tags: seq<Tag>, ops: seq<Op>)
    requires Balanced(sum, tags) && RunTags(tags, ops).Some?
    ensures Balanced(RunSum(sum, tags, ops), RunTags(tags, ops).value)
    decreases |ops|
  {
    if ops == [] {
    } else {
      StepBalanced(sum, tags, ops[0]);
      RunBalanced(SumAfter(sum, tags, ops[0]), TagsAfter(tags, ops[0]).value, ops[1..]);
    }
  }

  // ---------------------------------------------------------------------------------------------
  // The tracker
  // ---------------------------------------------------------------------------------------------

  ghost predicate Tagged(live: seq<Block>, tags: seq<Tag>)
    reads live
  {
    |live| == |tags| && forall i :: 0 <= i < |live| ==> live[i].tag == tags[i]
  }

  /** `sum` is what the table says. */
  ghost predicate Says(table: map<Site, AllocInfo>, entries: set<AllocInfo>, sum: map<Site, Totals>)
    reads entries
  {
    && table.Keys == sum.Keys
    && forall s | s in table :: table[s] in entries && table[s].site == s
                                && Totals(table[s].count, table[s].totalSize) == sum[s]
  }

  class MemTracker {
    const memHash: HashContext<Site, AllocInfo>
    ghost var entries: set<AllocInfo>
    ghost var sum: map<Site, Totals>
    ghost var blocks: set<Block>  // those that have ever been alive
    ghost var live: seq<Block>
    ghost var tags: seq<Tag>

    ghost predicate Consistent()
      reads this, memHash, memHash.buckets, entries
    {
      memHash.Valid() && memHash.keys.keyOf == SiteOf && Says(memHash.table, entries, sum)
    }

    ghost predicate Valid()
      reads this, memHash, memHash.buckets, entries, live
    {
      && Consistent() && NoDuplicates(live) && Tagged(live, tags) && Balanced(sum, tags)
      && forall i :: 0 <= i < |live| ==> live[i] in blocks
    }

    /** The table and the tags are those after a call. */
    ghost predicate After(sum0: map<Site, Totals>, tags0: seq<Tag>, op: Op)
      reads this
    {
      TagsAfter(tags0, op) == Some(tags) && sum == SumAfter(sum0, tags0, op)
    }

    /** initMemTracker */
    constructor (calcHash: Site -> nat)
      ensures Valid() && live == [] && fresh(memHash) && fresh(memHash.buckets) && fresh(entries) && blocks == {}
    {
      memHash := new HashContext<Site, AllocInfo>(BUCKET_SIZE, Keys(SiteOf, calcHash));
      live, blocks, tags, entries, sum := [], {}, [], {}, map[];
    }

    /** The entry of a site, which is added if there is none. */
    method EntryOf(site: Site) returns (info: AllocInfo)
      requires Consistent()
      modifies this`entries, this`sum, memHash, memHash.buckets
      ensures old(entries) <= entries && fresh(entries - old(entries))
      ensures Consistent() && site in memHash.table && memHash.table[site] == info
      ensures sum == if site in old(sum) then old(sum) else old(sum)[site := Totals(0, 0)]
    {
      var found := memHash.LookupHash(site);
      if found.Some? {
        return found.value;
      }
      info := new AllocInfo(site);
      assert SiteOf(info) == site;
      var _ := memHash.AddHash(info);
      entries, sum := entries + {info}, sum[site := Totals(0, 0)];
    }

    /** Counting a block in or out. */
    method Count(info: AllocInfo, n: int, size: int)
      requires Consistent() && info.site in memHash.table && memHash.table[info.site] == info
      modifies this`sum, info
      ensures Consistent() && info.count == old(info.count) + n
      ensures sum == old(sum)[info.site := Totals(old(sum)[info.site].count + n, old(sum)[info.site].totalSize + size)]
    {
      info.count := info.count + n;
      info.totalSize := info.totalSize + size;
      sum := sum[info.site := Totals(info.count, info.totalSize)];
    }

    /** An entry that counts nothing any more is removed. */
    method Drop(site: Site)
      requires Consistent()
      modifies this`sum, memHash, memHash.buckets
      ensures Consistent() && sum == old(sum) - {site}
    {
      var _ := memHash.DelHash(site);
      sum := sum - {site};
    }

    method CheckMalloc(tag: Tag)
      requires Consistent()
      modifies this`entries, this`sum, memHash, memHash.buckets, entries
      ensures Consistent() && sum == Charge(old(sum), tag)
      ensures old(entries) <= entries && fresh(entries - old(entries))
    {
      ghost var was := if tag.site in sum then sum[tag.site] else Totals(0, 0);
      var info := EntryOf(tag.site);
      assert sum[tag.site] == was;
      Count(info, 1, tag.size);
    }

    method Uncount(info: AllocInfo, tag: Tag)
      requires Consistent() && tag.site in memHash.table && memHash.table[tag.site] == info
      modifies this`sum, memHash, memHash.buckets, info
      ensures Consistent() && sum == Discharge(old(sum), tag)
    {
      Count(info, -1, -tag.size);
      if info.count == 0 {
        Drop(tag.site);
      }
    }

    method CheckFree(tag: Tag)
      requires Consistent()
      modifies this`sum, memHash, memHash.buckets, entries
      ensures Consistent() && sum == Discharge(old(sum), tag)
    {
      var found := memHash.LookupHash(tag.site);
      if found.Some? {
        Uncount(found.value, tag);
      }
    }

    method DebugMalloc(size: int, file: FileName, line: int) returns (ptr: Block)
      requires Valid()
      modifies this, memHash, memHash.buckets, entries
      ensures Valid() && fresh(ptr) && live == old(live) + [ptr]
              && After(old(sum), old(tags), Malloc(Tag(Site(file, line), size)))
      ensures old(entries) <= entries && fresh(entries - old(entries)) && blocks == old(blocks) + {ptr}
      ensures ptr.tag == Tag(Site(file, line), size) && Counted(old(sum), sum, None, Some(ptr.tag))
    {
      ptr := new Block(Tag(Site(file, line), size));
      StepCounts(sum, tags, Malloc(ptr.tag));
      Adopt(ptr);
    }

    /** The block at `i` of the live ones is no longer counted. */
    method Forget(ptr: Block, ghost i: nat)
      requires Valid() && i < |live| && live[i] == ptr
      modifies this, memHash, memHash.buckets, entries
      ensures Valid() && live == Without(old(live), i) && After(old(sum), old(tags), Free(i))
      ensures entries == old(entries) && blocks == old(blocks)
    {
      assert tags == tags[..i] + [ptr.tag] + tags[i + 1..];
      DischargeBalanced(sum, tags[..i], ptr.tag, tags[i + 1..]);
      CheckFree(ptr.tag);
      live, tags := live[..i] + live[i + 1..], tags[..i] + tags[i + 1..];
    }

    method DebugFree(ptr: Block)
      requires Valid() && ptr in live
      modifies this, memHash, memHash.buckets, entries
      ensures Valid() && entries == old(entries) && blocks == old(blocks)
      ensures exists i: nat ::
        i < |old(live)| && old(live)[i] == ptr && live == Without(old(live), i) && After(old(sum), old(tags), Free(i))
      ensures Counted(old(sum), sum, Some(ptr.tag), None)
      ensures forall b :: b in live <==> b in old(live) && b != ptr
    {
      ghost var i :| 0 <= i < |live| && live[i] == ptr;
      StepCounts(sum, tags, Free(i));
      Forget(ptr, i);
    }

    /** Memory that is reallocated is counted out and counted in again, at the same address or, if it `moves`, at
        another. */
    method DebugRealloc(ptr: Block?, size: int, file: FileName, line: int, moves: bool) returns (ptr2: Block)
      requires Valid() && (ptr != null ==> ptr in live)
      modifies this, memHash, memHash.buckets, entries, ptr
      ensures Valid() && old(entries) <= entries && fresh(entries - old(entries)) && blocks == old(blocks) + {ptr2}
      ensures ptr == null || moves ==> fresh(ptr2)
      ensures ptr != null && !moves ==> ptr2 == ptr
      ensures ptr == null ==> live == old(live) + [ptr2]
                              && After(old(sum), old(tags), Malloc(Tag(Site(file, line), size)))
      ensures ptr != null ==> exists i: nat ::
        && i < |old(live)| && old(live)[i] == ptr && live == Without(old(live), i) + [ptr2]
        && After(old(sum), old(tags), Realloc(i, Tag(Site(file, line), size), moves))
      ensures ptr2.tag == Tag(Site(file, line), size)
      ensures Counted(old(sum), sum, if ptr == null then None else Some(old(ptr.tag)), Some(ptr2.tag))
    {
      if ptr == null {
        ptr2 := DebugMalloc(size, file, line);
        return;
      }
      ghost var i :| 0 <= i < |live| && live[i] == ptr;
      StepCounts(sum, tags, Realloc(i, Tag(Site(file, line), size), moves));
      Forget(ptr, i);
      if moves {
        ptr2 := new Block(Tag(Site(file, line), size));
      } else {
        ptr2 := ptr;
        ptr2.tag := Tag(Site(file, line), size);
      }
      Adopt(ptr2);
    }

    /** A block that is not counted is counted in. */
    method Adopt(ptr: Block)
      requires Valid() && ptr !in live
      modifies this, memHash, memHash.buckets, entries
      ensures Valid() && live == old(live) + [ptr] && After(old(sum), old(tags), Malloc(old(ptr.tag)))
      ensures old(entries) <= entries && fresh(entries - old(entries)) && blocks == old(blocks) + {ptr}
    {
      ChargeBalanced(sum, tags, ptr.tag);
      CheckMalloc(ptr.tag);
      live, blocks, tags := live + [ptr], blocks + {ptr}, tags + [ptr.tag];
    }

    /** One call, on the live blocks of `held`. */
    method Perform(held: seq<Block>, op: Op) returns (held': seq<Block>)
      requires Valid() && held == live && TagsAfter(tags, op).Some?
      modifies this, memHash, memHash.buckets, entries, blocks
      ensures Valid() && held' == live && After(old(sum), old(tags), op)
      ensures old(entries) <= entries && fresh(entries - old(entries))
      ensures old(blocks) <= blocks && fresh(blocks - old(blocks))
    {
      match op
      case Malloc(tag) =>
        var ptr := DebugMalloc(tag.size, tag.site.file, tag.site.line);
        held' := held + [ptr];
      case Realloc(i, tag, moves) =>
        var ptr := DebugRealloc(held[i], tag.size, tag.site.file, tag.site.line, moves);
        held' := Without(held, i) + [ptr];
      case Free(i) =>
        DebugFree(held[i]);
        held' := Without(held, i);
    }

    /** Any run of calls on live blocks. */
    method PerformAll(held: seq<Block>, ops: seq<Op>) returns (held': seq<Block>)
      requires Valid() && held == live && RunTags(tags, ops).Some?
      modifies this, memHash, memHash.buckets, entries, blocks
      ensures Valid() && held' == live
      ensures Some(tags) == RunTags(old(tags), ops) && sum == RunSum(old(sum), old(tags), ops)
    {
      held' := held;
      var i := 0;
      assert ops[0..] == ops;
      while i < |ops|
        invariant 0 <= i <= |ops| && Valid() && held' == live
        invariant RunTags(tags, ops[i..]) == RunTags(old(tags), ops)
        invariant RunSum(sum, tags, ops[i..]) == RunSum(old(sum), old(tags), ops)
        invariant old(entries) <= entries && fresh(entries - old(entries))
        invariant old(blocks) <= blocks && fresh(blocks - old(blocks))
      {
        assert ops[i..][0] == ops[i] && ops[i..][1..] == ops[i + 1..];
        held' := Perform(held', ops[i]);
        i := i + 1;
      }
    }
  }
}
