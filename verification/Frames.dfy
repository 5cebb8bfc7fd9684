/** Physical memory, the boot-time bump allocator and the global frame pool.

    Addresses are frame numbers. A `Word` is one 8-byte word of a frame, split
    the way a page-table entry is: a link to another frame is a word whose flags
    are all clear, and the zero word is `ZERO`.
  */
module Frames {
  import opened Basics

  datatype Word = Word(frame: nat, present: bool, writable: bool, user: bool, huge: bool, noExec: bool)

  const ZERO: Word := Word(0, false, false, false, false, false)

  function Link(frame: nat): Word { Word(frame, false, false, false, false, false) }

  const ENTRIES: nat := 512

  type Frame = seq<Word>

  function ZeroFrame(): Frame { seq(ENTRIES, _ => ZERO) }

  predicate Sized(mem: seq<Frame>) { forall f | 0 <= f < |mem| :: |mem[f]| == ENTRIES }

  // ---- The boot allocator -----------------------------------------------------------------------

  datatype Descriptor = Descriptor(conventional: bool, start: nat, pages: nat)

  /** The frame belongs to descriptor `d`. */
  predicate Within(d: Descriptor, f: nat) { d.conventional && d.start <= f < d.start + d.pages }

  /** The memory map describes every frame at most once. */
  ghost predicate Disjoint(map_: seq<Descriptor>) {
    forall i, j | 0 <= i < j < |map_| ::
      map_[i].start + map_[i].pages <= map_[j].start || map_[j].start + map_[j].pages <= map_[i].start
  }

  /** Frames the cursor (index, offset) has passed. */
  ghost predicate Passed(map_: seq<Descriptor>, index: nat, offset: nat, f: nat) {
    || (exists i :: 0 <= i < index && i < |map_| && Within(map_[i], f))
    || (index < |map_| && Within(map_[index], f) && f < map_[index].start + offset)
  }

  /** Some descriptor of conventional memory holds the frame. */
  ghost predicate Conventional(map_: seq<Descriptor>, f: nat) { exists i :: 0 <= i < |map_| && Within(map_[i], f) }

  /** Conventional frames the cursor has still to come to. */
  ghost predicate Ahead(map_: seq<Descriptor>, index: nat, offset: nat, f: nat) {
    f > 0 && Conventional(map_, f) && !Passed(map_, index, offset, f)
  }

  /** Descriptor `i` starts at address 0 and the cursor has still to enter it. */
  predicate ZeroAhead(map_: seq<Descriptor>, index: nat, offset: nat, i: nat) {
    index <= i < |map_| && map_[i].conventional && map_[i].start == 0 && (i == index ==> offset == 0)
  }

  /** Frames of such a descriptor: the cursor leaves it at once, because its first frame is frame 0. */
  ghost predicate Abandoned(map_: seq<Descriptor>, index: nat, offset: nat, f: nat) {
    f > 0 && exists i: nat :: ZeroAhead(map_, index, offset, i) && Within(map_[i], f)
  }

  /** The frames handed out from the cursor on, in order. */
  ghost function Stream(map_: seq<Descriptor>, index: nat, offset: nat): (fs: seq<nat>)
    decreases |map_| - index, if index < |map_| then map_[index].pages - offset else 0
  {
    if index >= |map_| then []
    else
      var d := map_[index];
      if d.conventional && offset < d.pages && d.start + offset > 0 then
        [d.start + offset] + Stream(map_, index, offset + 1)
      else Stream(map_, index + 1, 0)
  }

  /** FrameAllocator::allocate_frame: a conventional frame the cursor has not come to yet, never frame 0. Besides it the
      cursor passes exactly abandoned frames, and no frame is left when there is no answer. */
  method AllocateFrame(map_: seq<Descriptor>, index: nat, offset: nat)
    returns (r: Option<nat>, index': nat, offset': nat)
    requires Disjoint(map_)
    ensures r.Some? ==> Ahead(map_, index, offset, r.value) && !Abandoned(map_, index, offset, r.value)
    ensures r.Some? ==> Passed(map_, index', offset', r.value)
    ensures forall f: nat | Passed(map_, index, offset, f) :: Passed(map_, index', offset', f)
    ensures forall f: nat | Ahead(map_, index, offset, f) ::
              r == Some(f) || Ahead(map_, index', offset', f) || Abandoned(map_, index, offset, f)
    ensures forall f: nat | Abandoned(map_, index', offset', f) :: Abandoned(map_, index, offset, f)
    ensures forall f: nat | Abandoned(map_, index, offset, f) && Ahead(map_, index', offset', f) ::
              Abandoned(map_, index', offset', f)
    ensures r.Some? ==>
              && index <= index' < |map_| && 0 < offset' <= map_[index'].pages
              && (index' == index ==> offset' == offset + 1)
    ensures r.Some? ==> Within(map_[index'], r.value) && r.value == map_[index'].start + offset' - 1
    ensures r.None? ==> forall f: nat :: !Ahead(map_, index', offset', f)
    ensures Stream(map_, index, offset) == (if r.Some? then [r.value] else []) + Stream(map_, index', offset')
    ensures r.None? ==> Stream(map_, index', offset') == []
  {
    index', offset' := index, offset;
    while index' < |map_|
      invariant index <= index' && (index' == index ==> offset' == offset) && (index' > index ==> offset' == 0)
      invariant Stream(map_, index, offset) == Stream(map_, index', offset')
      invariant forall f: nat | Passed(map_, index, offset, f) :: Passed(map_, index', offset', f)
      invariant forall f: nat | f > 0 && Passed(map_, index', offset', f) && !Passed(map_, index, offset, f) ::
                Abandoned(map_, index, offset, f)
      decreases |map_| - index'
    {
      hide Passed, Abandoned, Within;
      var d := map_[index'];
      if d.conventional && offset' < d.pages {
        var frame := d.start + offset';
        if frame > 0 {
          StepPassed(map_, index', offset');
          NotPassed(map_, index, offset, index', frame);
          NotAbandoned(map_, index, offset, index', offset', frame);
          LaterAbandoned(map_, index, offset, index', offset' + 1);
          StillAbandoned(map_, index, offset, index', offset');
          return Some(frame), index', offset' + 1;
        }
      }
      NextPassed(map_, index, offset, index', offset');
      index', offset' := index' + 1, 0;
    }
    AllPassed(map_, index', offset');
    LaterAbandoned(map_, index, offset, index', offset');
    r := None;
  }

  lemma StepPassed(map_: seq<Descriptor>, index: nat, offset: nat)
    requires index < |map_| && map_[index].conventional && offset < map_[index].pages
    ensures Within(map_[index], map_[index].start + offset) && Conventional(map_, map_[index].start + offset)
    ensures forall f: nat ::
              Passed(map_, index, offset + 1, f) <==> Passed(map_, index, offset, f) || f == map_[index].start + offset
  {
    assert Within(map_[index], map_[index].start + offset);
  }

  /** Leaving a descriptor that is used up, of another kind, or that starts at address 0. */
  lemma NextPassed(map_: seq<Descriptor>, index: nat, offset: nat, index': nat, offset': nat)
    requires index <= index' < |map_| && (index' == index ==> offset' == offset) && (index' > index ==> offset' == 0)
    requires map_[index'].conventional && offset' < map_[index'].pages ==> map_[index'].start + offset' == 0
    ensures forall f: nat | Passed(map_, index', offset', f) :: Passed(map_, index' + 1, 0, f)
    ensures forall f: nat | f > 0 && Passed(map_, index' + 1, 0, f) && !Passed(map_, index', offset', f) ::
              Abandoned(map_, index, offset, f)
  {
    forall f: nat | Passed(map_, index', offset', f)
      ensures Passed(map_, index' + 1, 0, f)
    {
      if Within(map_[index'], f) {
        assert 0 <= index' < index' + 1;
      }
    }
    forall f: nat | f > 0 && Passed(map_, index' + 1, 0, f) && !Passed(map_, index', offset', f)
      ensures Abandoned(map_, index, offset, f)
    {
      assert Within(map_[index'], f) && ZeroAhead(map_, index, offset, index');
    }
  }

  lemma AllPassed(map_: seq<Descriptor>, index: nat, offset: nat)
    requires |map_| <= index
    ensures forall f: nat :: !Ahead(map_, index, offset, f)
  {
  }

  lemma LaterAbandoned(map_: seq<Descriptor>, index: nat, offset: nat, index': nat, offset': nat)
    requires index <= index' && (index' == index ==> offset <= offset')
    ensures forall f: nat | Abandoned(map_, index', offset', f) :: Abandoned(map_, index, offset, f)
  {
    forall f: nat | Abandoned(map_, index', offset', f)
      ensures Abandoned(map_, index, offset, f)
    {
      var i: nat :| ZeroAhead(map_, index', offset', i) && Within(map_[i], f);
      assert ZeroAhead(map_, index, offset, i);
    }
  }

  lemma StillAbandoned(map_: seq<Descriptor>, index: nat, offset: nat, index': nat, offset': nat)
    requires index <= index' < |map_| && (index' == index ==> offset' == offset) && (index' > index ==> offset' == 0)
    requires map_[index'].conventional && map_[index'].start + offset' > 0
    ensures forall f: nat | Abandoned(map_, index, offset, f) && Ahead(map_, index', offset' + 1, f) ::
              Abandoned(map_, index', offset' + 1, f)
  {
    forall f: nat | Abandoned(map_, index, offset, f) && Ahead(map_, index', offset' + 1, f)
      ensures Abandoned(map_, index', offset' + 1, f)
    {
      var i: nat :| ZeroAhead(map_, index, offset, i) && Within(map_[i], f);
      assert ZeroAhead(map_, index', offset' + 1, i);
    }
  }

  lemma NotPassed(map_: seq<Descriptor>, index: nat, offset: nat, i: nat, f: nat)
    requires Disjoint(map_) && index <= i < |map_| && Within(map_[i], f) && (i == index ==> f >= map_[i].start + offset)
    ensures !Passed(map_, index, offset, f)
  {
    forall j | 0 <= j < i
      ensures !Within(map_[j], f)
    {
      assert map_[j].start + map_[j].pages <= map_[i].start || map_[i].start + map_[i].pages <= map_[j].start;
    }
  }

  lemma NotAbandoned(map_: seq<Descriptor>, index: nat, offset: nat, index': nat, offset': nat, f: nat)
    requires Disjoint(map_) && index <= index' < |map_| && (index' == index ==> offset' == offset)
    requires (index' > index ==> offset' == 0)
    requires map_[index'].conventional && f == map_[index'].start + offset' > 0 && offset' < map_[index'].pages
    ensures !Abandoned(map_, index, offset, f)
  {
    forall i: nat | ZeroAhead(map_, index, offset, i)
      ensures !Within(map_[i], f)
    {
      if i != index' {
        assert map_[i].pages <= map_[index'].start;
      }
    }
  }

  /** The first call already answers nothing although nine frames are there. */
  method ZeroStart() returns (r: Option<nat>)
    ensures r.None? && forall f: nat | 1 <= f < 10 :: Ahead([Descriptor(true, 0, 10)], 0, 0, f)
  {
    var map_ := [Descriptor(true, 0, 10)];
    forall f: nat | f > 0
      ensures Ahead(map_, 0, 0, f) <==> f < 10
      ensures Abandoned(map_, 0, 0, f) <==> f < 10
    {
      assert Within(map_[0], f) <==> f < 10;
      assert ZeroAhead(map_, 0, 0, 0);
    }
    var i, o;
    r, i, o := AllocateFrame(map_, 0, 0);
  }

  /** Calling allocate_frame until it answers nothing hands out every frame ahead that is not abandoned, each once: all
      of them exactly when no descriptor that starts at address 0 and has a second frame is still to come. */
  method AllocateAll(map_: seq<Descriptor>, index: nat, offset: nat) returns (frames: seq<nat>)
    requires Disjoint(map_)
    ensures frames == Stream(map_, index, offset)
    ensures forall f: nat :: f in frames <==> Ahead(map_, index, offset, f) && !Abandoned(map_, index, offset, f)
    ensures forall i, j | 0 <= i < j < |frames| :: frames[i] != frames[j]
    ensures (forall f: nat | Ahead(map_, index, offset, f) :: f in frames)
            <==> forall i: nat | ZeroAhead(map_, index, offset, i) :: map_[i].pages <= 1
  {
    hide Passed, Abandoned, Disjoint, Conventional, Stream;
    frames := [];
    var i: nat, o: nat := index, offset;
    var next;
    next, i, o := AllocateFrame(map_, i, o);
    while next.Some?
      invariant Stream(map_, index, offset) == frames + (if next.Some? then [next.value] else []) + Stream(map_, i, o)
      invariant next.None? ==> Stream(map_, i, o) == []
      invariant forall f: nat ::
                f in frames ==>
                    Ahead(map_, index, offset, f) && !Abandoned(map_, index, offset, f) && Passed(map_, i, o, f)
      invariant next.Some? ==>
                && Ahead(map_, index, offset, next.value) && !Abandoned(map_, index, offset, next.value)
                && Passed(map_, i, o, next.value)
      invariant next.Some? ==> next.value !in frames && i < |map_| && o <= map_[i].pages
      invariant forall f: nat | Ahead(map_, index, offset, f) && !Abandoned(map_, index, offset, f) ::
                  f in frames || next == Some(f) || Ahead(map_, i, o, f)
      invariant forall f: nat | Passed(map_, index, offset, f) :: Passed(map_, i, o, f)
      invariant forall f: nat | Abandoned(map_, i, o, f) :: Abandoned(map_, index, offset, f)
      invariant forall f: nat | Abandoned(map_, index, offset, f) && Ahead(map_, i, o, f) :: Abandoned(map_, i, o, f)
      invariant next.None? ==> forall f: nat :: !Ahead(map_, i, o, f)
      invariant forall a, b | 0 <= a < b < |frames| :: frames[a] != frames[b]
      decreases next.Some?, |map_| - i, if i < |map_| then map_[i].pages - o else 0
    {
      frames := frames + [next.value];
      next, i, o := AllocateFrame(map_, i, o);
    }
    ZeroLosesExactly(map_, index, offset);
  }

  lemma ZeroLosesExactly(map_: seq<Descriptor>, index: nat, offset: nat)
    requires Disjoint(map_)
    ensures (forall f: nat | Ahead(map_, index, offset, f) :: !Abandoned(map_, index, offset, f))
            <==> forall i: nat | ZeroAhead(map_, index, offset, i) :: map_[i].pages <= 1
  {
    forall i: nat | ZeroAhead(map_, index, offset, i) && map_[i].pages > 1
      ensures Ahead(map_, index, offset, 1) && Abandoned(map_, index, offset, 1)
    {
      assert Within(map_[i], 1);
      NotPassed(map_, index, offset, i, 1);
    }
  }

  /** Handed out between two positions of the cursor. */
  ghost predicate NewFrame(map_: seq<Descriptor>, index: nat, offset: nat, index': nat, offset': nat, k: nat) {
    k > 0 && !Passed(map_, index, offset, k) && Passed(map_, index', offset', k)
  }

  /** Frames allocate_frame will hand out from here on. */
  ghost predicate Coming(map_: seq<Descriptor>, index: nat, offset: nat, f: nat) {
    Ahead(map_, index, offset, f) && !Abandoned(map_, index, offset, f)
  }

  /** The `count` frames from position `i` on are neighbours. */
  ghost predicate InRow(fs: seq<nat>, i: nat, count: nat) {
    i + count <= |fs| && forall j | i <= j < i + count :: fs[j] == fs[i] + (j - i)
  }

  /** FrameAllocator::allocate_contiguous: the first `count` neighbouring frames in the order they are handed out, and
      everything before them is spent; no answer exactly when none are to come. */
  method AllocateContiguous(map_: seq<Descriptor>, index: nat, offset: nat, count: nat)
    returns (r: Option<nat>, index': nat, offset': nat)
    requires Disjoint(map_)
    ensures r.Some? ==>
              && count > 0
              && forall k: nat | r.value <= k < r.value + count :: NewFrame(map_, index, offset, index', offset', k)
    ensures forall f: nat | Passed(map_, index, offset, f) :: Passed(map_, index', offset', f)
    ensures r.None? <==> count == 0 || forall i: nat :: !InRow(Stream(map_, index, offset), i, count)
    ensures r.Some? ==>
              var fs := Stream(map_, index, offset);
              exists i: nat ::
                InRow(fs, i, count) && r.value == fs[i] && Stream(map_, index', offset') == fs[i + count..] &&
                               forall j: nat | j < i :: !InRow(fs, j, count)
  {
    hide Passed, Within, Disjoint, Stream, Conventional, Abandoned;
    index', offset' := index, offset;
    if count == 0 {
      return None, index', offset';
    }
    ghost var fs := Stream(map_, index, offset);
    r, index', offset' := AllocateFrame(map_, index', offset');
    if r.None? {
      assert fs == [];
      return;
    }
    var start: nat, found: nat := r.value, 1;
    ghost var n := 1;
    StreamFirst(fs, start, Stream(map_, index', offset'));
    while found < count
      invariant 1 <= found <= count && found <= n <= |fs| && fs[n..] == Stream(map_, index', offset')
      invariant fs[n - found] == start && InRow(fs, n - found, found)
      invariant forall i: nat | i < n - found :: !InRow(fs, i, count)
      invariant forall k: nat | start <= k < start + found :: NewFrame(map_, index, offset, index', offset', k)
      invariant forall f: nat | Passed(map_, index, offset, f) :: Passed(map_, index', offset', f)
      invariant index' < |map_| && offset' <= map_[index'].pages
      decreases |map_| - index', map_[index'].pages - offset'
    {
      var next;
      ghost var i0, o0 := index', offset';
      next, index', offset' := AllocateFrame(map_, index', offset');
      forall k: nat | NewFrame(map_, index, offset, i0, o0, k)
        ensures NewFrame(map_, index, offset, index', offset', k)
      {
      }
      if next.None? {
        RowsOver(fs, n, found, count);
        return None, index', offset';
      }
      StreamNext(fs, n, next.value, Stream(map_, index', offset'));
      RowStep(fs, n, found, count);
      n := n + 1;
      if next.value == start + found {
        found := found + 1;
      } else {
        start, found := next.value, 1;
      }
    }
    return Some(start), index', offset';
  }

  lemma StreamFirst(fs: seq<nat>, f: nat, rest: seq<nat>)
    requires fs == [f] + rest
    ensures fs[0] == f && fs[1..] == rest
  {
  }

  lemma StreamNext(fs: seq<nat>, n: nat, f: nat, rest: seq<nat>)
    requires n <= |fs| && fs[n..] == [f] + rest
    ensures n < |fs| && fs[n] == f && fs[n + 1..] == rest
  {
    assert fs[n..][0] == fs[n] && fs[n..][1..] == fs[n + 1..];
  }

  /** The row of `found` frames that ends at position `n` grows by the next frame, or a new one starts there. */
  lemma RowStep(fs: seq<nat>, n: nat, found: nat, count: nat)
    requires 1 <= found <= n < |fs| && found < count && InRow(fs, n - found, found)
    requires forall i: nat | i < n - found :: !InRow(fs, i, count)
    ensures fs[n] == fs[n - found] + found ==> InRow(fs, n - found, found + 1)
    ensures fs[n] != fs[n - found] + found ==> InRow(fs, n, 1) && forall i: nat | i < n :: !InRow(fs, i, count)
  {
    assert fs[n - 1] == fs[n - found] + (found - 1);
    forall i: nat | n - found <= i < n && fs[n] != fs[n - found] + found
      ensures !InRow(fs, i, count)
    {
      assert fs[n] != fs[n - 1] + 1 && i <= n - 1 && n < i + count;
    }
  }

  lemma RowsOver(fs: seq<nat>, n: nat, found: nat, count: nat)
    requires n == |fs| && found <= n && found < count && forall i: nat | i < n - found :: !InRow(fs, i, count)
    ensures forall i: nat :: !InRow(fs, i, count)
  {
  }

  lemma StillThere(map_: seq<Descriptor>, index: nat, offset: nat, i: nat, f: nat)
    requires i < |map_| && Within(map_[i], f) && Coming(map_, index, offset, f)
    ensures index <= i && (i == index ==> f >= map_[i].start + offset > 0)
  {
    assert i == index && map_[i].start + offset == 0 ==> ZeroAhead(map_, index, offset, i);
  }

  lemma StillComing(map_: seq<Descriptor>, index: nat, offset: nat, i1: nat, o1: nat, i: nat, s: nat, count: nat)
    requires Disjoint(map_) && index <= i1 <= i < |map_| && (i1 == index ==> offset <= o1)
    requires (i == i1 ==> s >= map_[i].start + o1)
    requires forall k: nat | s <= k < s + count :: Within(map_[i], k) && Coming(map_, index, offset, k)
    ensures forall k: nat | s <= k < s + count :: Coming(map_, i1, o1, k)
  {
    LaterAbandoned(map_, index, offset, i1, o1);
    forall k: nat | s <= k < s + count
      ensures Coming(map_, i1, o1, k)
    {
      assert Within(map_[i], k) && Coming(map_, index, offset, k);
      NotPassed(map_, i1, o1, i, k);
    }
  }

  /** Neighbouring frames of one descriptor that are to come are handed out in a row. */
  lemma {:induction false} WindowInRow(map_: seq<Descriptor>, index: nat, offset: nat, i: nat, s: nat, count: nat)
    requires Disjoint(map_) && i < |map_| && count > 0
    requires forall k: nat | s <= k < s + count :: Within(map_[i], k) && Coming(map_, index, offset, k)
    ensures exists j: nat :: InRow(Stream(map_, index, offset), j, count) && Stream(map_, index, offset)[j] == s
    decreases |map_| - index, if index < |map_| then map_[index].pages - offset else 0
  {
    hide Passed, Abandoned, Conventional, Coming, Disjoint;
    assert Within(map_[i], s) && Coming(map_, index, offset, s) && Within(map_[i], s + count - 1);
    StillThere(map_, index, offset, i, s);
    var fs, d := Stream(map_, index, offset), map_[index];
    if i == index && s == d.start + offset {
      Row(map_, index, offset, count);
      assert InRow(fs, 0, count);
    } else if d.conventional && offset < d.pages && d.start + offset > 0 {
      StillComing(map_, index, offset, index, offset + 1, i, s, count);
      WindowInRow(map_, index, offset + 1, i, s, count);
      var rest := Stream(map_, index, offset + 1);
      var j: nat :| InRow(rest, j, count) && rest[j] == s;
      RowLater(fs, d.start + offset, rest, j, count);
    } else {
      StillComing(map_, index, offset, index + 1, 0, i, s, count);
      WindowInRow(map_, index + 1, 0, i, s, count);
    }
  }

  lemma RowLater(fs: seq<nat>, f: nat, rest: seq<nat>, j: nat, count: nat)
    requires fs == [f] + rest && InRow(rest, j, count) && count > 0
    ensures InRow(fs, j + 1, count) && fs[j + 1] == rest[j]
  {
    forall k | j + 1 <= k < j + 1 + count
      ensures fs[k] == fs[j + 1] + (k - j - 1)
    {
      assert fs[k] == rest[k - 1];
    }
  }

  /** What is left of a descriptor is handed out in a row. */
  lemma {:induction false} Row(map_: seq<Descriptor>, index: nat, offset: nat, n: nat)
    requires index < |map_| && map_[index].conventional && map_[index].start + offset > 0
    requires offset + n <= map_[index].pages
    ensures n <= |Stream(map_, index, offset)|
    ensures forall k | 0 <= k < n :: Stream(map_, index, offset)[k] == map_[index].start + offset + k
    decreases n
  {
    if n > 0 {
      Row(map_, index, offset + 1, n - 1);
    }
  }

  // ---- The frame pool ---------------------------------------------------------------------------

  /** The free list with nodes `l`, linked through the first word of each frame. */
  ghost predicate Chain(mem: seq<Frame>, l: seq<nat>, head: nat) {
    if l == [] then head == 0
    else head == l[0] != 0 && l[0] < |mem| && |mem[l[0]]| == ENTRIES && Chain(mem, l[1..], mem[l[0]][0].frame)
  }

  lemma {:induction false} ChainFrame(mem: seq<Frame>, mem': seq<Frame>, l: seq<nat>, head: nat)
    requires Chain(mem, l, head) && |mem'| == |mem| && forall f | f in l && f < |mem| :: mem'[f] == mem[f]
    ensures Chain(mem', l, head)
    decreases |l|
  {
    if l != [] {
      ChainFrame(mem, mem', l[1..], mem[l[0]][0].frame);
    }
  }

  lemma ChainHead(mem: seq<Frame>, l: seq<nat>, head: nat)
    requires Chain(mem, l, head)
    ensures head != 0 <==> l != []
    ensures head != 0 ==> l[0] == head < |mem| && |mem[head]| == ENTRIES && Chain(mem, l[1..], mem[head][0].frame)
  {
  }

  lemma ChainPush(mem: seq<Frame>, l: seq<nat>, head: nat, f: nat)
    requires Chain(mem, l, head) && 0 < f < |mem| && |mem[f]| == ENTRIES && mem[f][0].frame == head
    ensures Chain(mem, [f] + l, f)
  {
    assert ([f] + l)[1..] == l;
  }

  /** Every frame a pool deals in: in memory, not 0, and handed out by the boot allocator. */
  ghost predicate Dealt(map_: seq<Descriptor>, index: nat, offset: nat, n: nat, f: nat) {
    0 < f < n && Passed(map_, index, offset, f)
  }

  /** The frames below `n` that allocate_frame hands out from the cursor (index, offset) on. */
  ghost function ToCome(map_: seq<Descriptor>, index: nat, offset: nat, n: nat): set<nat> {
    set f: nat | f < n && Ahead(map_, index, offset, f) && !Abandoned(map_, index, offset, f)
  }

  /** One call of allocate_frame takes its answer, and nothing else, off the frames to come. */
  lemma OneLess(map_: seq<Descriptor>, index: nat, offset: nat, i: nat, o: nat, n: nat, r: Option<nat>)
    requires r.Some? ==>
              && Ahead(map_, index, offset, r.value) && !Abandoned(map_, index, offset, r.value)
              && Passed(map_, i, o, r.value)
    requires forall f: nat | Passed(map_, index, offset, f) :: Passed(map_, i, o, f)
    requires forall f: nat | Ahead(map_, index, offset, f) ::
              r == Some(f) || Ahead(map_, i, o, f) || Abandoned(map_, index, offset, f)
    requires forall f: nat | Abandoned(map_, i, o, f) :: Abandoned(map_, index, offset, f)
    requires forall f: nat | Abandoned(map_, index, offset, f) && Ahead(map_, i, o, f) :: Abandoned(map_, i, o, f)
    ensures ToCome(map_, i, o, n) == if r.Some? then ToCome(map_, index, offset, n) - {r.value}
                                     else ToCome(map_, index, offset, n)
  {
    hide Abandoned, Passed, Conventional;
  }

  /** The frames to come are all the frames ahead exactly when no descriptor starting at address 0 is. */
  lemma NoneLost(map_: seq<Descriptor>, index: nat, offset: nat, n: nat)
    requires Disjoint(map_) && forall i | 0 <= i < |map_| && map_[i].conventional :: map_[i].start + map_[i].pages <= n
    ensures (forall f: nat | Ahead(map_, index, offset, f) :: f in ToCome(map_, index, offset, n))
            <==> forall i: nat | ZeroAhead(map_, index, offset, i) :: map_[i].pages <= 1
  {
    ZeroLosesExactly(map_, index, offset);
  }

  /** Every frame is in use, on the free list, or still to come. */
  ghost predicate Divided(total: set<nat>, used: set<nat>, free: seq<nat>, come: set<nat>) {
    && (forall f :: f in total <==> f in used || f in free || f in come)
    && (forall f | f in come :: f !in used && f !in free) && (forall f | f in free :: f !in used)
  }

  lemma DividedPop(total: set<nat>, used: set<nat>, free: seq<nat>, come: set<nat>)
    requires Divided(total, used, free, come) && free != [] && forall i, j | 0 <= i < j < |free| :: free[i] != free[j]
    ensures Divided(total, used + {free[0]}, free[1..], come)
  {
    assert forall f :: f in free <==> f == free[0] || f in free[1..];
  }

  lemma DividedTake(total: set<nat>, used: set<nat>, free: seq<nat>, come: set<nat>, f: nat)
    requires Divided(total, used, free, come) && f in come
    ensures Divided(total, used + {f}, free, come - {f}) && f !in used
  {
  }

  lemma DividedPush(total: set<nat>, used: set<nat>, free: seq<nat>, come: set<nat>, f: nat)
    requires Divided(total, used, free, come) && f in used
    ensures Divided(total, used - {f}, [f] + free, come)
  {
    assert forall g :: g in [f] + free <==> g == f || g in free;
  }

  lemma DividedLeft(total: set<nat>, used: set<nat>, free: seq<nat>, come: set<nat>)
    requires Divided(total, used, free, come)
    ensures total - used == {} <==> free == [] && come == {}
    ensures used <= total
  {
    if free != [] {
      assert free[0] in total - used;
    }
    assert come <= total - used;
  }

  class FramePool {
    var mem: seq<Frame>
    var freeHead: nat
    var freeCount: nat
    var inUse: nat
    var index: nat
    var offset: nat
    const map_: seq<Descriptor>
    ghost const index0: nat
    ghost const offset0: nat
    ghost var free: seq<nat>
    ghost var used: set<nat>

    ghost predicate Valid()
      reads this
    {
      && Sized(mem) && Disjoint(map_)
      && (forall i | 0 <= i < |map_| && map_[i].conventional :: map_[i].start + map_[i].pages <= |mem|)
      && Chain(mem, free, freeHead) && freeCount == |free| && inUse == |used|
      && (forall i, j | 0 <= i < j < |free| :: free[i] != free[j])
      && (forall i | 0 <= i < |free| :: free[i] !in used && Dealt(map_, index, offset, |mem|, free[i]))
      && (forall f | f in used :: Dealt(map_, index, offset, |mem|, f))
      && Divided(Total(), used, free, ToCome(map_, index, offset, |mem|))
    }

    /** Every frame the boot allocator had to give when the pool was set up. */
    ghost function Total(): set<nat>
      reads this
    {
      ToCome(map_, index0, offset0, |mem|)
    }

    /** What can still be allocated. */
    ghost function Left(): set<nat>
      reads this
    {
      Total() - used
    }

    /** commit_frame_allocator: the pool takes over where the boot allocator stopped. */
    constructor (m: seq<Frame>, descriptors: seq<Descriptor>, i: nat, o: nat)
      requires Sized(m) && Disjoint(descriptors)
      requires forall k | 0 <= k < |descriptors| && descriptors[k].conventional ::
                descriptors[k].start + descriptors[k].pages <= |m|
      ensures Valid() && used == {} && mem == m && free == [] && map_ == descriptors && index0 == i && offset0 == o
      ensures Left() == ToCome(descriptors, i, o, |m|)
    {
      mem, map_, index, offset := m, descriptors, i, o;
      index0, offset0 := i, o;
      freeHead, freeCount, inUse := 0, 0, 0;
      free, used := [], {};
    }

    /** alloc_frame: a zeroed frame nobody has, or nothing when the free list and the boot memory are both empty. */
    method AllocFrame() returns (r: Option<nat>)
      requires Valid()
      modifies this
      ensures Valid() && |mem| == |old(mem)| && Total() == old(Total())
      ensures r.None? <==> old(Left()) == {}
      ensures r.Some? ==> r.value in old(Left())
      ensures Left() == if r.Some? then old(Left()) - {r.value} else old(Left())
      ensures old(free) == [] ==> free == []
      ensures r.Some? ==>
                && 0 < r.value < |mem| && r.value !in old(used) && used == old(used) + {r.value}
                && mem == old(mem)[r.value := ZeroFrame()]
      ensures r.Some? ==> r.value in old(free) || !Passed(map_, old(index), old(offset), r.value)
      ensures r.None? ==> mem == old(mem) && used == old(used) && old(free) == free == [] && inUse == old(inUse)
    {
      hide Valid, Total, Left, Passed;
      r := Find();
      if r.Some? {
        Clear(r.value);
      }
    }

    /** A frame from the free list, or else from the boot allocator. */
    method Find() returns (r: Option<nat>)
      requires Valid()
      modifies this
      ensures Valid() && mem == old(mem) && Total() == old(Total())
      ensures r.None? <==> old(Left()) == {}
      ensures r.Some? ==> r.value in old(Left())
      ensures Left() == if r.Some? then old(Left()) - {r.value} else old(Left())
      ensures old(free) == [] ==> free == []
      ensures r.Some? ==>
                0 < r.value < |mem| && r.value in used && r.value !in old(used) && used == old(used) + {r.value}
      ensures r.Some? ==> r.value in old(free) || !Passed(map_, old(index), old(offset), r.value)
      ensures r.None? ==> used == old(used) && old(free) == free == [] && inUse == old(inUse)
    {
      hide Passed, Within, Disjoint, Chain, ToCome, Divided, Sized, Dealt;
      ChainHead(mem, free, freeHead);
      DividedLeft(Total(), used, free, ToCome(map_, index, offset, |mem|));
      if freeHead != 0 {
        var frame := Pop();
        r := Some(frame);
      } else {
        r := Bump();
      }
      DividedLeft(Total(), used, free, ToCome(map_, index, offset, |mem|));
    }

    /** A frame in use is filled with zeros. */
    method Clear(f: nat)
      requires Valid() && f in used
      modifies this`mem
      ensures Valid() && f < |old(mem)| && mem == old(mem)[f := ZeroFrame()] && Left() == old(Left())
      ensures Total() == old(Total())
    {
      hide Passed, Within, Disjoint, Chain, ToCome, Divided;
      ChainFrame(mem, mem[f := ZeroFrame()], free, freeHead);
      mem := mem[f := ZeroFrame()];
    }

    /** The head of the free list goes into use. */
    method Pop() returns (frame: nat)
      requires Valid() && freeHead != 0
      modifies this
      ensures Valid() && mem == old(mem) && 0 < frame < |mem| && frame !in old(used) && used == old(used) + {frame}
      ensures frame in old(free)
    {
      hide Passed, Within, Disjoint, Chain, ToCome, Divided;
      ChainHead(mem, free, freeHead);
      frame := freeHead;
      ghost var rest := free[1..];
      DividedPop(Total(), used, free, ToCome(map_, index, offset, |mem|));
      assert forall i | 0 <= i < |rest| :: rest[i] == free[i + 1];
      freeHead := mem[frame][0].frame;
      freeCount := freeCount - 1;
      inUse := inUse + 1;
      free := rest;
      used := used + {frame};
    }

    /** A frame the boot allocator still has goes into use. */
    method Bump() returns (r: Option<nat>)
      requires Valid()
      modifies this
      ensures Valid() && mem == old(mem)
      ensures r.Some? ==> 0 < r.value < |mem| && r.value !in old(used) && used == old(used) + {r.value}
      ensures r.Some? ==> !Passed(map_, old(index), old(offset), r.value)
      ensures free == old(free)
      ensures r.None? <==> ToCome(map_, old(index), old(offset), |old(mem)|) == {}
      ensures r.None? ==> used == old(used) && inUse == old(inUse)
    {
      hide Passed, Disjoint, Chain, Abandoned, Divided, Stream, Conventional;
      var i, o;
      r, i, o := AllocateFrame(map_, index, offset);
      OneLess(map_, index, offset, i, o, |mem|, r);
      ghost var come := ToCome(map_, index, offset, |mem|);
      index, offset := i, o;
      if r.Some? {
        DividedTake(Total(), used, free, come, r.value);
        inUse := inUse + 1;
        used := used + {r.value};
      }
    }

    /** A store into a frame that is in use. */
    method Write(f: nat, i: nat, w: Word)
      requires Valid() && f in used && i < ENTRIES
      modifies this`mem
      ensures Valid() && |mem| == |old(mem)| && Left() == old(Left()) && f < |mem| && |old(mem)[f]| == ENTRIES
      ensures mem == old(mem)[f := old(mem)[f][i := w]]
    {
      hide Passed, Within, Disjoint, Chain, ToCome, Divided;
      ChainFrame(mem, mem[f := mem[f][i := w]], free, freeHead);
      mem := mem[f := mem[f][i := w]];
    }

    /** free_frame: the frame becomes the head of the free list. */
    method FreeFrame(frame: nat)
      requires Valid() && frame in used
      modifies this
      ensures Valid() && used == old(used) - {frame} && |mem| == |old(mem)| && |mem[frame]| == ENTRIES
      ensures mem == old(mem)[frame := old(mem)[frame][0 := Link(old(freeHead))]]
      ensures Left() == old(Left()) + {frame} && frame !in old(Left())
    {
      hide Passed, Within, Disjoint, Chain, ToCome, Divided;
      ChainFrame(mem, mem[frame := mem[frame][0 := Link(freeHead)]], free, freeHead);
      ChainPush(mem[frame := mem[frame][0 := Link(freeHead)]], free, freeHead, frame);
      DividedPush(Total(), used, free, ToCome(map_, index, offset, |mem|), frame);
      DividedLeft(Total(), used, free, ToCome(map_, index, offset, |mem|));
      mem := mem[frame := mem[frame][0 := Link(freeHead)]];
      freeHead := frame;
      freeCount := freeCount + 1;
      inUse := inUse - 1;
      free := [frame] + free;
      used := used - {frame};
    }
  }
}
