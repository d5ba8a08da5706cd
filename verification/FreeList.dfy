/** The free list in the heap's own words: what each change of it writes, and
    that the list read back afterwards is the one intended. */
module FreeList {
  import opened HeapLayout

  /** Address `a` lies in none of the blocks. */
  ghost predicate Outside(blocks: seq<Block>, a: nat) {
    forall k :: 0 <= k < |blocks| ==> !(blocks[k].start <= a < blocks[k].End())
  }

  /** Only words inside the blocks changed. */
  ghost predicate OnlyInside(mem: Words, now: Words, blocks: seq<Block>) {
    forall a: nat :: Outside(blocks, a) ==> Word(now, a) == Word(mem, a)
  }

  /** The cached pointer is null exactly when the list is empty, and otherwise
      points at a block of the list. */
  ghost predicate Known(largest: nat, free: seq<Block>) {
    if free == [] then largest == 0 else exists k :: 0 <= k < |free| && free[k].start == largest
  }

  /** Null marks the end of the list, and nothing else. */
  lemma AtNull(free: seq<Block>, i: int)
    requires Ordered(free)
    ensures At(free, i) != 0 <==> 0 <= i < |free|
  {}

  /** What the code finds at a block of the list. */
  lemma CurrentFacts(mem: Words, free: seq<Block>, i: nat)
    requires Ordered(free) && Linked(mem, free) && i < |free|
    ensures Between(free, i, 1, free[i]) && free[i].size >= MIN_FREE && free[i].start > 0 && WellFormed(Free(free[i]))
    ensures At(free, i - 1) != 0 <==> i > 0
    ensures At(free, i + 1) != 0 <==> i + 1 < |free|
    ensures Word(mem, free[i].start) == free[i].size
    ensures Word(mem, free[i].start + 8) == At(free, i + 1) && Word(mem, free[i].start + 16) == At(free, i - 1)
    ensures i > 0 ==> Word(mem, At(free, i - 1) + 8) == free[i].start && At(free, i - 1) + MIN_FREE <= free[i].start
    ensures i + 1 < |free| ==> Word(mem, At(free, i + 1) + 16) == free[i].start && free[i].End() <= At(free, i + 1)
  {
    assert LinkedAt(mem, free, i);
    if i > 0 { assert LinkedAt(mem, free, i - 1) && WellFormed(Free(free[i - 1])); }
    if i + 1 < |free| { assert LinkedAt(mem, free, i + 1) && WellFormed(Free(free[i + 1])); }
  }

  /** Rewiring within the list stays inside its blocks. */
  lemma RewiredInside(was: Words, now: Words, free: seq<Block>, i: nat, cut: nat)
    requires Ordered(free) && cut == 1 && i + cut <= |free| && Rewired(was, now, free, i, cut, free[i])
    ensures OnlyInside(was, now, free)
  {
    hide Word;
    if i > 0 { assert WellFormed(Free(free[i - 1])); }
    if i + 1 < |free| { assert WellFormed(Free(free[i + 1])); }
    assert WellFormed(Free(free[i]));
  }

  lemma Sizes(b: Block)
    requires WellFormed(Free(b))
    ensures b.size >= MIN_FREE && b.start > 0
  {}

  ghost predicate BothWritten(was: Words, now: Words, next: nat, pre: Block, suf: Block) {
    forall a: nat :: Word(now, a) ==
      if next != 0 && a == next + 16 then suf.start
      else if a == pre.start + 8 then suf.start
      else if a == suf.start + 8 then next
      else if a == suf.start + 16 then pre.start
      else if a == suf.start then suf.size
      else if a == pre.start then pre.size
      else Word(was, a)
  }

  lemma BothChain(was: Words, now: Words, next: nat, pre: Block, suf: Block)
    requires var inner :=
               was[pre.start := pre.size][suf.start := suf.size][suf.start + 16 := pre.start][suf.start + 8 := next]
               [pre.start + 8 := suf.start];
             now == if next != 0 then inner[next + 16 := suf.start] else inner
    ensures BothWritten(was, now, next, pre, suf)
  {
    hide Word;
    var one := was[pre.start := pre.size];
    var two := one[suf.start := suf.size];
    var three := two[suf.start + 16 := pre.start];
    var four := three[suf.start + 8 := next];
    var inner := four[pre.start + 8 := suf.start];
    WordPut(was, one, pre.start, pre.size);
    WordPut(one, two, suf.start, suf.size);
    WordPut(two, three, suf.start + 16, pre.start);
    WordPut(three, four, suf.start + 8, next);
    WordPut(four, inner, pre.start + 8, suf.start);
    if next != 0 { WordPut(inner, now, next + 16, suf.start); }
  }

  lemma BothWords(was: Words, now: Words, free: seq<Block>, i: nat, pre: Block, suf: Block)
    requires i < |free| && Ordered(free) && Linked(was, free) && WellFormed(Free(pre)) && WellFormed(Free(suf))
    requires pre.start == free[i].start && pre.End() <= suf.start && suf.End() == free[i].End()
    requires BothWritten(was, now, At(free, i + 1), pre, suf)
    ensures Rewired(was, now, free, i, 1, free[i]) && Entered(now, free, i, 1, [pre, suf])
    ensures NewLinks(now, [pre, suf], At(free, i - 1), At(free, i + 1)) && Ordered([pre, suf])
  {
    hide Ordered, Linked, WellFormed, Word;
    CurrentFacts(was, free, i);
    TwoOrdered(pre, suf);
    Sizes(pre);
    Sizes(suf);
    var news := [pre, suf];
    assert NewAt(now, news, 0, At(free, i - 1), At(free, i + 1));
    assert NewAt(now, news, 1, At(free, i - 1), At(free, i + 1));
  }

  lemma PrefixWords(was: Words, now: Words, free: seq<Block>, i: nat, pre: Block)
    requires i < |free| && Ordered(free) && Linked(was, free) && WellFormed(Free(pre))
    requires pre.start == free[i].start && pre.size <= free[i].size
    requires var next := At(free, i + 1);
             var inner := was[pre.start := pre.size][pre.start + 8 := next];
             now == if next != 0 then inner[next + 16 := pre.start] else inner
    ensures Rewired(was, now, free, i, 1, free[i]) && Entered(now, free, i, 1, [pre])
    ensures NewLinks(now, [pre], At(free, i - 1), At(free, i + 1)) && Ordered([pre])
  {
    hide Linked, WellFormed;
    CurrentFacts(was, free, i);
    Sizes(pre);
    var news := [pre];
    assert NewAt(now, news, 0, At(free, i - 1), At(free, i + 1));
  }

  /** The words of a suffix that took its block's place. */
  ghost predicate SuffixWritten(was: Words, now: Words, prev: nat, next: nat, suf: Block) {
    forall a: nat :: Word(now, a) ==
      if next != 0 && a == next + 16 then suf.start
      else if a == suf.start + 16 then prev
      else if prev != 0 && a == prev + 8 then suf.start
      else if a == suf.start + 8 then next
      else if a == suf.start then suf.size
      else Word(was, a)
  }

  lemma SuffixChain(was: Words, inner: Words, linked: Words, now: Words, prev: nat, next: nat, suf: Block)
    requires inner == was[suf.start := suf.size][suf.start + 8 := next][suf.start + 16 := prev]
    requires forall a: nat :: Word(linked, a) ==
               if a == suf.start + 16 then prev else if prev != 0 && a == prev + 8 then suf.start else Word(inner, a)
    requires now == if next != 0 then linked[next + 16 := suf.start] else linked
    ensures SuffixWritten(was, now, prev, next, suf)
  {
    hide Word;
    var one := was[suf.start := suf.size];
    var two := one[suf.start + 8 := next];
    WordPut(was, one, suf.start, suf.size);
    WordPut(one, two, suf.start + 8, next);
    WordPut(two, inner, suf.start + 16, prev);
    if next != 0 { WordPut(linked, now, next + 16, suf.start); }
  }

  lemma SuffixWords(was: Words, now: Words, free: seq<Block>, i: nat, suf: Block)
    requires i < |free| && Ordered(free) && Linked(was, free) && WellFormed(Free(suf))
    requires free[i].start <= suf.start && suf.End() == free[i].End()
    requires SuffixWritten(was, now, At(free, i - 1), At(free, i + 1), suf)
    ensures Rewired(was, now, free, i, 1, free[i]) && Entered(now, free, i, 1, [suf])
    ensures NewLinks(now, [suf], At(free, i - 1), At(free, i + 1)) && Ordered([suf])
  {
    hide Linked, WellFormed, Word;
    CurrentFacts(was, free, i);
    Sizes(suf);
    var news := [suf];
    assert NewAt(now, news, 0, At(free, i - 1), At(free, i + 1));
  }

  lemma NothingWords(was: Words, now: Words, free: seq<Block>, i: nat)
    requires i < |free| && Ordered(free) && Linked(was, free)
    requires var prev, next := At(free, i - 1), At(free, i + 1);
             forall a: nat :: Word(now, a) ==
               if next != 0 && a == next + 16 then prev else if prev != 0 && a == prev + 8 then next else Word(was, a)
    ensures Rewired(was, now, free, i, 1, free[i]) && Entered(now, free, i, 1, [])
    ensures NewLinks(now, [], At(free, i - 1), At(free, i + 1)) && Ordered([])
  {
    hide Linked, WellFormed;
    CurrentFacts(was, free, i);
  }

  /** A block of the list gives way to blocks within it. */
  lemma Carried(was: Words, now: Words, free: seq<Block>, i: nat, news: seq<Block>)
    requires i < |free| && Ordered(free) && Linked(was, free) && Rewired(was, now, free, i, 1, free[i])
    requires Entered(now, free, i, 1, news) && NewLinks(now, news, At(free, i - 1), At(free, i + 1)) && Ordered(news)
    requires forall k :: 0 <= k < |news| ==> free[i].start <= news[k].start && news[k].End() <= free[i].End()
    ensures Linked(now, Splice(free, i, 1, news)) && Ordered(Splice(free, i, 1, news)) && OnlyInside(was, now, free)
  {
    hide Word, Linked, Ordered, Rewired, Entered, NewLinks, OnlyInside, Splice;
    CurrentFacts(was, free, i);
    Spliced(was, now, free, i, 1, free[i], news);
    RewiredInside(was, now, free, i, 1);
    SpliceOrdered(free, i, 1, free[i], news);
  }

  lemma WordPut(m: Words, n: Words, x: nat, v: nat)
    requires n == m[x := v]
    ensures forall a: nat :: Word(n, a) == if a == x then v else Word(m, a)
  {
    forall a: nat ensures Word(n, a) == if a == x then v else Word(m, a) {
      assert a in n <==> a == x || a in m;
    }
  }

  lemma TwoOrdered(a: Block, b: Block)
    requires WellFormed(Free(a)) && WellFormed(Free(b)) && a.End() <= b.start
    ensures Ordered([a, b])
  {}

  /** The cached pointer survives a splice if it pointed elsewhere, or now
      points at a new block. */
  lemma SpliceKnown(before: nat, after: nat, free: seq<Block>, i: nat, cut: nat, news: seq<Block>)
    requires i + cut <= |free| && Known(before, free)
    requires
      || (exists k :: 0 <= k < |news| && news[k].start == after)
      || (after == before && free != [] && forall k :: i <= k < i + cut ==> free[k].start != before)
    ensures Known(after, Splice(free, i, cut, news))
  {
    var now := Splice(free, i, cut, news);
    if k :| 0 <= k < |news| && news[k].start == after {
      assert now[i + k].start == after;
    } else {
      var k :| 0 <= k < |free| && free[k].start == before;
      assert now[if k < i then k else k - cut + |news|].start == after;
    }
  }

  lemma RemnantsClear(b: Block, payload: nat, suffix: nat, k: nat)
    requires Carvable(b, payload, suffix) && k < |Carve(b, payload, suffix).prefix + Carve(b, payload, suffix).suffix|
    ensures var c := Carve(b, payload, suffix);
            var r := (c.prefix + c.suffix)[k]; r.End() <= payload - HEADER || payload <= r.start
  {
    hide WellFormed;
  }

  /** What stays in the list keeps clear of the header. */
  lemma ClearOfHeader(free: seq<Block>, i: nat, payload: nat, suffix: nat, k: nat)
    requires i < |free| && Ordered(free) && Carvable(free[i], payload, suffix)
    requires var c := Carve(free[i], payload, suffix); k < |Splice(free, i, 1, c.prefix + c.suffix)|
    ensures var c := Carve(free[i], payload, suffix);
            var b := Splice(free, i, 1, c.prefix + c.suffix)[k]; b.End() <= payload - HEADER || payload <= b.start
  {
    hide WellFormed, Carve;
    var c := Carve(free[i], payload, suffix);
    var news := c.prefix + c.suffix;
    var after := Splice(free, i, 1, news);
    if k < i {
      assert after[k] == free[k];
    } else if k >= i + |news| {
      assert after[k] == free[k - |news| + 1];
    } else {
      assert after[k] == news[k - i];
      RemnantsClear(free[i], payload, suffix, k - i);
    }
  }

  lemma LinkedStill(was: Words, now: Words, free: seq<Block>, at: nat)
    requires Linked(was, free) && Ordered(free)
    requires forall a: nat :: a != at && a != at + 8 ==> Word(now, a) == Word(was, a)
    requires forall k :: 0 <= k < |free| ==> free[k].End() <= at || at + 16 <= free[k].start
    ensures Linked(now, free)
  {
    hide Word, At;
    forall k | 0 <= k < |free| ensures LinkedAt(now, free, k) {
      assert LinkedAt(was, free, k) && WellFormed(Free(free[k]));
    }
  }

  /** The header lies in the live block, outside the list. */
  lemma HeaderKeeps(was: Words, carved: Words, now: Words, free: seq<Block>, i: nat, payload: nat, suffix: nat,
                    first: nat, second: nat)
    requires i < |free| && Ordered(free) && Carvable(free[i], payload, suffix)
    requires now == carved[payload - HEADER := first][payload - HEADER + 8 := second] && OnlyInside(was, carved, free)
    requires var c := Carve(free[i], payload, suffix);
             var after := Splice(free, i, 1, c.prefix + c.suffix); Linked(carved, after) && Ordered(after)
    ensures var c := Carve(free[i], payload, suffix); Linked(now, Splice(free, i, 1, c.prefix + c.suffix))
    ensures OnlyInside(was, now, free) && Word(now, payload - HEADER) == first
            && Word(now, payload - HEADER + 8) == second
  {
    hide Linked, Ordered, Splice, Word, Carve;
    var c := Carve(free[i], payload, suffix);
    var after := Splice(free, i, 1, c.prefix + c.suffix);
    var one := carved[payload - HEADER := first];
    WordPut(carved, one, payload - HEADER, first);
    WordPut(one, now, payload - HEADER + 8, second);
    forall k | 0 <= k < |after| ensures after[k].End() <= payload - HEADER || payload <= after[k].start {
      ClearOfHeader(free, i, payload, suffix, k);
    }
    LinkedStill(carved, now, after, payload - HEADER);
    forall a: nat | Outside(free, a) ensures Word(now, a) == Word(was, a) {
      assert !(free[i].start <= a < free[i].End());
    }
  }

  lemma KnownNull(largest: nat, free: seq<Block>)
    requires Known(largest, free) && Ordered(free)
    ensures largest == 0 <==> free == []
  {}

  ghost predicate LinkWritten(was: Words, now: Words, prev: nat, next: nat, b: Block) {
    forall a: nat :: Word(now, a) ==
      if next != 0 && a == next + 16 then b.start
      else if prev != 0 && a == prev + 8 then b.start
      else if a == b.start + 16 then prev
      else if a == b.start + 8 then next
      else if a == b.start then b.size
      else Word(was, a)
  }

  lemma LinkChain(was: Words, inner: Words, entered: Words, now: Words, prev: nat, next: nat, b: Block)
    requires inner == was[b.start := b.size][b.start + 8 := next][b.start + 16 := prev]
    requires entered == if prev != 0 then inner[prev + 8 := b.start] else inner
    requires now == if next != 0 then entered[next + 16 := b.start] else entered
    ensures LinkWritten(was, now, prev, next, b)
  {
    hide Word;
    var one := was[b.start := b.size];
    var two := one[b.start + 8 := next];
    WordPut(was, one, b.start, b.size);
    WordPut(one, two, b.start + 8, next);
    WordPut(two, inner, b.start + 16, prev);
    if prev != 0 { WordPut(inner, entered, prev + 8, b.start); }
    if next != 0 { WordPut(entered, now, next + 16, b.start); }
  }

  /** The words of a block linked in between two others. */
  lemma LinkWords(was: Words, now: Words, free: seq<Block>, i: nat, b: Block)
    requires i <= |free| && Ordered(free) && Linked(was, free) && WellFormed(Free(b)) && Between(free, i, 0, b)
    requires LinkWritten(was, now, At(free, i - 1), At(free, i), b)
    ensures Linked(now, Splice(free, i, 0, [b])) && Ordered(Splice(free, i, 0, [b])) && OnlyInside(was, now, free + [b])
  {
    hide Linked, Word, Splice, WellFormed, Ordered, OnlyInside;
    AtNull(free, i - 1);
    AtNull(free, i);
    if i > 0 { SizeAt(free, i - 1); }
    if i < |free| { SizeAt(free, i); }
    Sizes(b);
    var news := [b];
    assert NewAt(now, news, 0, At(free, i - 1), At(free, i));
    Spliced(was, now, free, i, 0, b, news);
    OneOrdered(b);
    SpliceOrdered(free, i, 0, b, news);
    InsideWith(was, now, free, i, 0, b);
  }

  lemma SizeAt(free: seq<Block>, i: nat)
    requires Ordered(free) && i < |free|
    ensures free[i].size >= MIN_FREE && free[i].start > 0
  {
    assert WellFormed(Free(free[i]));
  }

  lemma InsideWith(was: Words, now: Words, free: seq<Block>, i: nat, cut: nat, room: Block)
    requires Ordered(free) && i + cut <= |free| && Rewired(was, now, free, i, cut, room)
    ensures OnlyInside(was, now, free + [room])
  {
    hide Word;
    var all := free + [room];
    forall a: nat | Outside(all, a) ensures Word(now, a) == Word(was, a) {
      assert all[|free|] == room;
      if i > 0 { assert all[i - 1] == free[i - 1]; SizeAt(free, i - 1); }
      if i + cut < |free| { assert all[i + cut] == free[i + cut]; SizeAt(free, i + cut); }
    }
  }

  ghost predicate AbsorbWritten(was: Words, now: Words, list: seq<Block>, i: nat, b: Block) {
    forall a: nat :: Word(now, a) ==
      if i + 2 < |list| && a == At(list, i + 2) + 16 then b.start
      else if a == b.start + 8 then At(list, i + 2)
      else if a == b.start then b.size
      else Word(was, a)
  }

  lemma TogetherWellFormed(a: Block, b: Block)
    requires WellFormed(Free(a)) && WellFormed(Free(b))
    ensures WellFormed(Free(Block(a.start, a.size + b.size)))
  {
    WordSum(a.size, b.size);
  }

  lemma OneOrdered(b: Block)
    requires WellFormed(Free(b))
    ensures Ordered([b])
  {}

  /** The words of two blocks become those of one. */
  lemma AbsorbWords(was: Words, now: Words, list: seq<Block>, i: nat, b: Block)
    requires i + 1 < |list| && Ordered(list) && Linked(was, list) && list[i].End() == list[i + 1].start
    requires b == Block(list[i].start, list[i].size + list[i + 1].size) && AbsorbWritten(was, now, list, i, b)
    ensures Linked(now, Splice(list, i, 2, [b])) && Ordered(Splice(list, i, 2, [b])) && OnlyInside(was, now, list)
  {
    hide Linked, Word, Splice, WellFormed, Ordered;
    CurrentFacts(was, list, i);
    CurrentFacts(was, list, i + 1);
    TogetherWellFormed(list[i], list[i + 1]);
    if i + 2 < |list| { SizeAt(list, i + 2); }
    var news := [b];
    assert NewAt(now, news, 0, At(list, i - 1), At(list, i + 2));
    assert Between(list, i, 2, b);
    Spliced(was, now, list, i, 2, b, news);
    OneOrdered(b);
    SpliceOrdered(list, i, 2, b, news);
    AbsorbInside(was, now, list, i, b);
  }

  lemma AbsorbInside(was: Words, now: Words, list: seq<Block>, i: nat, b: Block)
    requires i + 1 < |list| && Ordered(list) && b.start == list[i].start && AbsorbWritten(was, now, list, i, b)
    ensures OnlyInside(was, now, list)
  {
    hide Word, Ordered;
    SizeAt(list, i);
    if i + 2 < |list| { SizeAt(list, i + 2); }
    forall a: nat | Outside(list, a) ensures Word(now, a) == Word(was, a) {
      assert !(list[i].start <= a < list[i].End());
      if i + 2 < |list| { assert !(list[i + 2].start <= a < list[i + 2].End()); }
    }
  }

  // ---------- putting a block back ----------

  ghost predicate Overlaps(free: seq<Block>, b: Block) {
    exists k :: 0 <= k < |free| && free[k].start < b.End() && b.start < free[k].End()
  }

  ghost predicate Place(free: seq<Block>, start: nat, i: nat) {
    && i <= |free|
    && (forall k :: 0 <= k < i ==> free[k].start < start)
    && (forall k :: i <= k < |free| ==> start <= free[k].start)
  }

  lemma PlaceFound(free: seq<Block>, start: nat, i: nat)
    requires Ordered(free) && i <= |free| && (forall k :: 0 <= k < i ==> free[k].start < start)
    requires i < |free| ==> start <= free[i].start
    ensures Place(free, start, i)
  {
    forall k | i <= k < |free| ensures start <= free[k].start {
      if i < k { assert free[i].End() <= free[k].start; }
    }
  }

  /** Only the two neighbours can overlap. */
  lemma PlaceOverlap(mem: Words, free: seq<Block>, i: nat, b: Block)
    requires Ordered(free) && Linked(mem, free) && Place(free, b.start, i) && b.size > 0
    ensures Overlaps(free, b) <==> (i > 0 && free[i - 1].End() > b.start) || (i < |free| && b.End() > free[i].start)
    ensures !Overlaps(free, b) ==> Between(free, i, 0, b)
    ensures At(free, i - 1) != 0 <==> i > 0
    ensures At(free, i) != 0 <==> i < |free|
    ensures i > 0 ==> Word(mem, At(free, i - 1)) == free[i - 1].size
  {
    hide Word;
    if i > 0 { assert LinkedAt(mem, free, i - 1) && WellFormed(Free(free[i - 1])); }
    if i < |free| { assert WellFormed(Free(free[i])); }
    forall k | 0 <= k < |free| && k != i && k != i - 1
      ensures i > 0 && k < i ==> free[k].End() <= free[i - 1].start
      ensures i < k ==> free[i].End() <= free[k].start
    {}
  }

  ghost function JoinNext(list: seq<Block>, i: nat): seq<Block> {
    if i + 1 < |list| && list[i].End() == list[i + 1].start then
      Splice(list, i, 2, [Block(list[i].start, list[i].size + list[i + 1].size)])
    else list
  }

  /** The list with `b` linked in at `i` and joined on both sides. */
  ghost function Merged(free: seq<Block>, i: nat, b: Block): seq<Block>
    requires i <= |free|
  {
    var joined := JoinNext(Splice(free, i, 0, [b]), i);
    if i > 0 then JoinNext(joined, i - 1) else joined
  }

  lemma OnlyInsideSame(mem: Words, list: seq<Block>)
    ensures OnlyInside(mem, mem, list)
  {}

  ghost predicate Has(list: seq<Block>, s: nat) {
    exists k :: 0 <= k < |list| && list[k].start == s
  }

  /** What joining a block with the next one may write to. */
  ghost predicate JoinWritten(was: Words, now: Words, list: seq<Block>, i: nat) {
    forall a: nat :: Word(now, a) != Word(was, a) ==>
      a == At(list, i) || a == At(list, i) + 8 || a == At(list, i + 2) + 16
  }

  /** `s` is a block of the list, or lies inside the block at `r`, and the
      size still to be read there is smaller than that block's. */
  ghost predicate Tracked(mem: Words, list: seq<Block>, r: nat, s: nat) {
    || Has(list, s)
    || (r < |list| && list[r].start + MIN_FREE <= s && s + MIN_FREE <= list[r].End() && Word(mem, s) < list[r].size)
  }

  lemma InsideTrans(was: Words, inner: Words, now: Words, blocks: seq<Block>)
    requires OnlyInside(was, inner, blocks) && OnlyInside(inner, now, blocks)
    ensures OnlyInside(was, now, blocks)
  {
    hide Outside, Word;
  }

  lemma InsertedHas(free: seq<Block>, i: nat, b: Block, s: nat)
    requires i <= |free| && Has(free, s)
    ensures Has(Splice(free, i, 0, [b]), s)
  {
    var list := Splice(free, i, 0, [b]);
    var k :| 0 <= k < |free| && free[k].start == s;
    assert list[if k < i then k else k + 1] == free[k];
  }

  /** The new block starts where no block of the list does. */
  lemma InsertedNew(free: seq<Block>, i: nat, b: Block, s: nat)
    requires i <= |free| && Ordered(free) && b.size > 0 && Between(free, i, 0, b) && Has(free, s)
    ensures s != b.start && s != 0
  {
    var k :| 0 <= k < |free| && free[k].start == s;
    SizeAt(free, k);
    if k < i - 1 { assert free[k].End() <= free[i - 1].start; }
    if i < k { assert free[i].End() <= free[k].start; }
  }

  lemma InsertedFacts(free: seq<Block>, i: nat, b: Block, s: nat)
    requires i <= |free| && Ordered(free) && WellFormed(Free(b)) && Between(free, i, 0, b) && Known(s, free)
    ensures var list := Splice(free, i, 0, [b]);
            && |list| == |free| + 1 && list[i] == b && At(list, i + 1) == At(free, i)
              && (i > 0 ==> list[i - 1].start == At(free, i - 1))
            && (free != [] ==> Has(list, s) && s != b.start && s != 0) && (free == [] ==> s == 0)
  {
    hide Has, Ordered, Between;
    if free != [] {
      assert Has(free, s) by { HasKnown(s, free); }
      InsertedHas(free, i, b, s);
      InsertedNew(free, i, b, s);
    }
  }

  lemma HasKnown(s: nat, free: seq<Block>)
    requires free != []
    ensures Known(s, free) <==> Has(free, s)
  {}

  ghost predicate Touching(list: seq<Block>, i: nat) {
    i + 1 < |list| && list[i].End() == list[i + 1].start
  }

  lemma JoinedTouching(list: seq<Block>, i: nat)
    requires Touching(list, i)
    ensures var now := JoinNext(list, i);
            && |now| == |list| - 1 && now[i] == Block(list[i].start, list[i].size + list[i + 1].size)
            && (forall k :: 0 <= k < i ==> now[k] == list[k]) && (forall k :: i < k < |now| ==> now[k] == list[k + 1])
  {
    var b := Block(list[i].start, list[i].size + list[i + 1].size);
    var now := list[..i] + [b] + list[i + 2..];
    assert JoinNext(list, i) == now && now[i] == b;
  }

  lemma JoinedFacts(list: seq<Block>, i: nat)
    requires i < |list|
    ensures var now := JoinNext(list, i);
            && i < |now| && now[i].start == list[i].start && (forall k :: 0 <= k < i ==> now[k] == list[k])
            && |now| == (if Touching(list, i) then |list| - 1 else |list|)
            && now[i].size == list[i].size + (if Touching(list, i) then list[i + 1].size else 0)
            && (forall k :: i < k < |now| ==> now[k] == list[if Touching(list, i) then k + 1 else k])
  {
    if Touching(list, i) {
      JoinedTouching(list, i);
    } else {
      assert JoinNext(list, i) == list;
    }
  }

  /** Every block but the swallowed one is still in the list. */
  lemma JoinedHas(list: seq<Block>, i: nat, s: nat)
    requires i < |list| && Has(list, s) && (Touching(list, i) ==> s != list[i + 1].start)
    ensures Has(JoinNext(list, i), s)
  {
    hide JoinNext;
    JoinedFacts(list, i);
    var now := JoinNext(list, i);
    var k :| 0 <= k < |list| && list[k].start == s;
    if k <= i {
      assert now[k].start == s;
    } else {
      assert now[if Touching(list, i) then k - 1 else k].start == s;
    }
  }

  lemma TrackFirst(was: Words, now: Words, list: seq<Block>, i: nat, s: nat)
    requires i < |list| && Ordered(list) && Linked(was, list) && JoinWritten(was, now, list, i)
    requires s != 0 ==> Has(list, s)
    ensures s != 0 ==> Tracked(now, JoinNext(list, i), i, s)
  {
    hide JoinNext, Word;
    if s != 0 {
      JoinedFacts(list, i);
      if Touching(list, i) && s == list[i + 1].start {
        assert LinkedAt(was, list, i + 1) && WellFormed(Free(list[i])) && WellFormed(Free(list[i + 1]));
        if i + 2 < |list| { assert list[i + 1].End() <= list[i + 2].start; }
        assert Word(now, s) == Word(was, s);
      } else {
        JoinedHas(list, i, s);
      }
    }
  }

  lemma TrackSecond(was: Words, now: Words, list: seq<Block>, i: nat, s: nat) returns (r: nat)
    requires 0 < i < |list| && Ordered(list) && JoinWritten(was, now, list, i - 1)
    requires s != 0 ==> Tracked(was, list, i, s) && s != list[i].start
    ensures s != 0 ==> Tracked(now, JoinNext(list, i - 1), r, s)
    ensures r == if Touching(list, i - 1) then i - 1 else i
  {
    hide JoinNext, Word;
    r := if Touching(list, i - 1) then i - 1 else i;
    if s != 0 {
      JoinedFacts(list, i - 1);
      if Has(list, s) {
        JoinedHas(list, i - 1, s);
      } else {
        assert WellFormed(Free(list[i - 1])) && list[i - 1].End() <= list[i].start;
        if i + 1 < |list| { assert list[i].End() <= list[i + 1].start && WellFormed(Free(list[i + 1])); }
        assert Word(now, s) == Word(was, s);
      }
    }
  }

  lemma InsideFirst(was: Words, now: Words, free: seq<Block>, i: nat, b: Block)
    requires i <= |free| && OnlyInside(was, now, Splice(free, i, 0, [b]))
    ensures OnlyInside(was, now, free + [b])
  {
    hide Word;
    var list, all := Splice(free, i, 0, [b]), free + [b];
    forall a: nat | Outside(all, a) ensures Word(now, a) == Word(was, a) { OutsideInserted(free, i, b, a); }
  }

  lemma OutsideInserted(free: seq<Block>, i: nat, b: Block, a: nat)
    requires i <= |free| && Outside(free + [b], a)
    ensures Outside(Splice(free, i, 0, [b]), a)
  {
    var list, all := Splice(free, i, 0, [b]), free + [b];
    forall k | 0 <= k < |list| ensures !(list[k].start <= a < list[k].End()) {
      assert list[k] == all[if k < i then k else if k == i then |free| else k - 1];
    }
  }

  lemma OutsideJoined(list: seq<Block>, i: nat, a: nat)
    requires i < |list| && Outside(list, a)
    ensures Outside(JoinNext(list, i), a)
  {
    hide JoinNext;
    JoinedFacts(list, i);
    var now := JoinNext(list, i);
    forall k | 0 <= k < |now| ensures !(now[k].start <= a < now[k].End()) {
      assert !(list[if k > i && Touching(list, i) then k + 1
        else k].start <= a < list[if k > i && Touching(list, i) then k + 1 else k].End());
      if k == i && Touching(list, i) { assert !(list[i + 1].start <= a < list[i + 1].End()); }
    }
  }

  lemma InsideSecond(was: Words, inner: Words, now: Words, free: seq<Block>, i: nat, b: Block)
    requires i <= |free| && OnlyInside(was, inner, free + [b]) && i < |Splice(free, i, 0, [b])|
    requires OnlyInside(inner, now, JoinNext(Splice(free, i, 0, [b]), i))
    ensures OnlyInside(was, now, free + [b])
  {
    hide Word, JoinNext, Splice, Outside;
    forall a: nat | Outside(free + [b], a) ensures Word(now, a) == Word(was, a) {
      OutsideInserted(free, i, b, a);
      OutsideJoined(Splice(free, i, 0, [b]), i, a);
    }
  }

  /** Which block the freed one has become part of. */
  lemma ResultFacts(mem: Words, free: seq<Block>, i: nat, b: Block, r: nat)
    requires i <= |free| && Ordered(free) && WellFormed(Free(b)) && Between(free, i, 0, b)
    requires Linked(mem, Merged(free, i, b)) && Ordered(Merged(free, i, b))
    requires r == if i > 0 && Touching(JoinNext(Splice(free, i, 0, [b]), i), i - 1) then i - 1 else i
    ensures var third := Merged(free, i, b);
            && r < |third|
            && third[r].start
              == (if i > 0 && At(free, i - 1) + Word(mem, At(free, i - 1)) >= b.End() then At(free, i - 1) else b.start)
            && Word(mem, third[r].start) == third[r].size
            && (At(free, i - 1) != 0 <==> i > 0)
  {
    hide Word, JoinNext, Ordered;
    var first := Splice(free, i, 0, [b]);
    var second := JoinNext(first, i);
    JoinedFacts(first, i);
    AtNull(free, i - 1);
    var third := Merged(free, i, b);
    if i > 0 {
      JoinedFacts(second, i - 1);
      assert LinkedAt(mem, third, i - 1);
      assert free[i - 1] == first[i - 1] == second[i - 1];
    }
    assert LinkedAt(mem, third, r);
  }

  lemma TrackedKnown(mem: Words, list: seq<Block>, r: nat, before: nat, result: nat, after: nat)
    requires r < |list| && result == list[r].start && Word(mem, result) == list[r].size
    requires before != 0 ==> Tracked(mem, list, r, before)
    requires after == if before == 0 || Word(mem, result) > Word(mem, before) then result else before
    ensures Known(after, list)
  {}
}
