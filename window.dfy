/** Chunked windowing of the message list: the list is cut into chunks of
    `CHUNK_SIZE` messages, each chunk has a container that is mounted
    (filled with its messages) while near the viewport and unmounted
    (emptied, its height kept) otherwise, and `jumpToMessage` mounts the
    chunk of a message and finds the message in it. */
module Window {
  import opened Text
  import opened Search

  /** `CHUNK_SIZE`. */
  const ChunkSize: nat := 50

  // ---------------------------------------------------------------------
  // chunkArray

  /** The consecutive slices of `size` elements, the last possibly
      shorter. */
  function Chunks<T>(a: seq<T>, size: nat): seq<seq<T>>
    requires size > 0
    decreases |a|
  {
    if a == [] then []
    else
      var n := Min(size, |a|);
      [a[..n]] + Chunks(a[n..], size)
  }

  function Concat<T>(xs: seq<seq<T>>): seq<T>
  {
    if xs == [] then [] else xs[0] + Concat(xs[1..])
  }

  /** One push of `chunkArray`'s loop: the chunks from `i` on are the slice
      at `i` followed by the chunks after it. */
  lemma ChunksStep<T>(a: seq<T>, size: nat, i: nat)
    requires size > 0 && i < |a|
    ensures Chunks(a[i..], size) == [a[i..Min(i + size, |a|)]] + Chunks(a[Min(i + size, |a|)..], size)
  {
    var n := Min(size, |a| - i);
    assert a[i..][..n] == a[i..Min(i + size, |a|)];
    assert a[i..][n..] == a[Min(i + size, |a|)..];
  }

  /** `chunkArray(array, size)` (script.js). */
  method ChunkArray<T>(a: seq<T>, size: nat) returns (result: seq<seq<T>>)
    requires size > 0
    ensures result == Chunks(a, size)
  {
    result := [];
    var i := 0;
    while i < |a|
      invariant result + Chunks(a[Min(i, |a|)..], size) == Chunks(a, size)
      decreases |a| - i
    {
      ChunksStep(a, size, i);
      assert Min(i, |a|) == i;
      result := result + [a[i..Min(i + size, |a|)]];
      i := i + size;
      assert a[Min(i, |a|)..] == a[Min(i - size + size, |a|)..];
    }
    assert a[Min(i, |a|)..] == [];
  }

  /** The chunks put back together are the list. */
  lemma {:induction false} ChunksFlatten<T>(a: seq<T>, size: nat)
    requires size > 0
    ensures Concat(Chunks(a, size)) == a
    decreases |a|
  {
    if a != [] {
      var n := Min(size, |a|);
      ChunksFlatten(a[n..], size);
      assert a[..n] + a[n..] == a;
    }
  }

  /** Every chunk is non-empty and at most `size` long, and every chunk
      but the last is exactly `size` long. */
  lemma {:induction false} ChunksShape<T>(a: seq<T>, size: nat)
    requires size > 0
    ensures forall c :: 0 <= c < |Chunks(a, size)| ==> 0 < |Chunks(a, size)[c]| <= size
    ensures forall c :: 0 <= c < |Chunks(a, size)| - 1 ==> |Chunks(a, size)[c]| == size
    decreases |a|
  {
    if a != [] {
      var n := Min(size, |a|);
      ChunksShape(a[n..], size);
      if n < size {
        assert a[n..] == [];
      }
    }
  }

  /** Chunk `c` exists exactly when `c * size` is inside the list, and is
      then the slice `a[c*size .. min(|a|, c*size + size)]`, the slice
      `jumpToMessage` renders. */
  lemma ChunkAt<T>(a: seq<T>, size: nat, c: nat)
    requires size > 0
    ensures c < |Chunks(a, size)| <==> c * size < |a|
    ensures c < |Chunks(a, size)| ==> Chunks(a, size)[c] == a[c * size..Min(|a|, c * size + size)]
  {
    OffsetIsProduct(c, size);
    ChunkFrom(a, size, c, c * size);
  }

  /** `c * size`, by repeated addition. */
  function Offset(c: nat, size: nat): nat
  {
    if c == 0 then 0 else Offset(c - 1, size) + size
  }

  lemma {:induction false} OffsetIsProduct(c: nat, size: nat)
    ensures Offset(c, size) == c * size
  {
    if c > 0 {
      OffsetIsProduct(c - 1, size);
      assert (c - 1) * size + size == c * size;
    }
  }

  /** `ChunkAt` with the offset `p = c * size` passed along, so that the
      induction only adds and subtracts `size`. */
  lemma {:induction false} ChunkFrom<T>(a: seq<T>, size: nat, c: nat, p: nat)
    requires size > 0 && p == Offset(c, size)
    ensures c < |Chunks(a, size)| <==> p < |a|
    ensures c < |Chunks(a, size)| ==> Chunks(a, size)[c] == a[p..Min(|a|, p + size)]
    decreases c
  {
    if a != [] {
      var n := Min(size, |a|);
      var rest := a[n..];
      var cs := Chunks(rest, size);
      assert Chunks(a, size) == [a[..n]] + cs;
      if c == 0 {
        assert a[..n] == a[p..Min(|a|, p + size)];
      } else {
        ChunkFrom(rest, size, c - 1, p - size);
        if p < |a| {
          assert n == size;
          assert Chunks(a, size)[c] == cs[c - 1];
          assert cs[c - 1] == rest[p - size..Min(|rest|, p)];
          SliceOfSuffix(a, n, p - size, Min(|rest|, p), p, Min(|a|, p + size));
        }
      }
    }
  }

  lemma SliceOfSuffix<T>(a: seq<T>, n: nat, i: nat, j: nat, lo: nat, hi: nat)
    requires n <= |a| && i <= j <= |a| - n && lo == n + i && hi == n + j
    ensures a[n..][i..j] == a[lo..hi]
  {
  }

  /** The count is `ceil(|a| / size)`: enough chunks to hold the list and
      not one more. */
  lemma ChunkCount<T>(a: seq<T>, size: nat)
    requires size > 0
    ensures |Chunks(a, size)| * size >= |a|
    ensures a != [] ==> (|Chunks(a, size)| - 1) * size < |a|
    ensures |Chunks(a, size)| == (|a| + size - 1) / size
  {
    var k := |Chunks(a, size)|;
    ChunkAt(a, size, k);
    if a != [] {
      ChunkAt(a, size, k - 1);
    }
    CeilDiv(|a|, size, k);
  }

  lemma CeilDiv(n: nat, d: nat, k: nat)
    requires d > 0 && k * d >= n && (n == 0 ==> k == 0) && (n > 0 ==> (k - 1) * d < n)
    ensures k == (n + d - 1) / d
  {
    var q := (n + d - 1) / d;
    assert q * d <= n + d - 1 < q * d + d;
    if k < q {
      MulLe(k + 1, q, d);
    } else if k > q {
      MulLe(q + 1, k, d);
    }
  }

  /** Message `i` is in chunk `i / 50`, at position `i % 50`. */
  lemma MessageInChunk<T>(a: seq<T>, i: nat)
    requires i < |a|
    ensures i / ChunkSize < |Chunks(a, ChunkSize)|
    ensures i % ChunkSize < |Chunks(a, ChunkSize)[i / ChunkSize]|
    ensures Chunks(a, ChunkSize)[i / ChunkSize][i % ChunkSize] == a[i]
  {
    var c := i / ChunkSize;
    ChunkAt(a, ChunkSize, c);
  }

  // ---------------------------------------------------------------------
  // Chunk containers

  /** A rendered message element: its `data-msg-index` tag and whether it
      got the `from-me` class. */
  datatype MessageView = MessageView(msgIndex: nat, fromMe: bool)

  /** A `.message-chunk` container: its message elements and its
      `style.minHeight`. */
  datatype ChunkBox = ChunkBox(views: seq<MessageView>, minHeight: nat)

  /** Where `jumpToMessage` scrolls: message `pos` of chunk `chunk`, or
      nowhere. */
  datatype Target = Element(chunk: nat, pos: nat) | NoTarget

  /** The elements `renderChunk` creates for chunk `c`: local message `k`
      is tagged `50 * c + k`. */
  function Views(c: nat, msgs: seq<Message>, selected: string): (r: seq<MessageView>)
    ensures |r| == |msgs|
    ensures forall k :: 0 <= k < |r| ==> r[k].msgIndex == c * ChunkSize + k
    ensures forall k :: 0 <= k < |r| ==> (r[k].fromMe <==> Sender(msgs[k]) == selected)
  {
    seq(|msgs|, k requires 0 <= k < |msgs| => MessageView(c * ChunkSize + k, Sender(msgs[k]) == selected))
  }

  /** The first position in `vs` tagged `i`, or -1. */
  function FindView(vs: seq<MessageView>, i: nat, from: nat): (r: int)
    ensures r == -1 || (from <= r < |vs| && vs[r].msgIndex == i)
    ensures r == -1 ==> forall k :: from <= k < |vs| ==> vs[k].msgIndex != i
    decreases |vs| - from
  {
    if from >= |vs| then -1
    else if vs[from].msgIndex == i then from
    else FindView(vs, i, from + 1)
  }

  /** The document lookup of the message element tagged `i`: the first
      such element, in container order. */
  function FindTagged(boxes: seq<ChunkBox>, i: nat, from: nat): (t: Target)
    ensures t.Element? ==>
      from <= t.chunk < |boxes| && t.pos < |boxes[t.chunk].views| && boxes[t.chunk].views[t.pos].msgIndex == i
    ensures t.NoTarget? ==> forall c, k :: from <= c < |boxes| && 0 <= k < |boxes[c].views| ==>
      boxes[c].views[k].msgIndex != i
    decreases |boxes| - from
  {
    if from >= |boxes| then NoTarget
    else
      var k := FindView(boxes[from].views, i, 0);
      if k >= 0 then Element(from, k) else FindTagged(boxes, i, from + 1)
  }

  /** The viewer's message list, its chunks, their containers and the
      `renderedMessages` map of mounted chunks. */
  class ChatWindow {
    var messages: seq<Message>
    var selected: string
    var chunks: seq<seq<Message>>
    var boxes: seq<ChunkBox>
    var rendered: map<nat, bool>

    /** Container `c` is filled with the elements of chunk `c` exactly
        when `c` is marked mounted, and is empty otherwise. */
    predicate Valid()
      reads this
    {
      && chunks == Chunks(messages, ChunkSize)
      && |boxes| == |chunks|
      && (forall c :: c in rendered ==> c < |boxes| && rendered[c])
      && (forall c :: 0 <= c < |boxes| && c in rendered ==> boxes[c].views == Views(c, chunks[c], selected))
      && (forall c :: 0 <= c < |boxes| && c !in rendered ==> boxes[c].views == [])
    }

    constructor()
      ensures Valid()
      ensures messages == [] && boxes == [] && rendered == map[]
    {
      messages, selected, chunks, boxes, rendered := [], [], [], [], map[];
    }

    /** `renderMessages` (script.js): forget every mounted chunk, cut the
        list into chunks and create one empty container per chunk. */
    method RenderMessages(ms: seq<Message>, sel: string)
      modifies this
      ensures Valid()
      ensures messages == ms && selected == sel && rendered == map[]
      ensures |boxes| == |Chunks(ms, ChunkSize)|
      ensures forall c :: 0 <= c < |boxes| ==> boxes[c] == ChunkBox([], 0)
    {
      rendered := map[];
      boxes := [];
      messages, selected := ms, sel;
      chunks := [];
      if |ms| == 0 {
        return;
      }
      chunks := ChunkArray(ms, ChunkSize);
      var containers := [];
      for c := 0 to |chunks|
        invariant |containers| == c
        invariant forall c' :: 0 <= c' < c ==> containers[c'] == ChunkBox([], 0)
      {
        containers := containers + [ChunkBox([], 0)];
      }
      boxes := containers;
    }

    /** `renderChunk` (script.js): nothing when container `c` does not
        exist or is already mounted; otherwise append one element per
        message, tagged with its global index, and mark `c` mounted. Both
        callers pass chunk `c` itself. */
    method RenderChunk(c: int, msgs: seq<Message>)
      requires Valid()
      requires 0 <= c < |chunks| && c !in rendered ==> msgs == chunks[c]
      modifies this
      ensures Valid()
      ensures messages == old(messages) && selected == old(selected) && chunks == old(chunks)
      ensures if 0 <= c < |old(boxes)| && c !in old(rendered)
        then rendered == old(rendered)[c := true]
          && boxes == old(boxes)[c := ChunkBox(Views(c, msgs, selected), old(boxes)[c].minHeight)]
        else rendered == old(rendered) && boxes == old(boxes)
    {
      if !(0 <= c < |boxes|) || c in rendered {
        return;
      }
      var views := boxes[c].views;
      for k := 0 to |msgs|
        invariant views == Views(c, msgs[..k], selected)
      {
        views := views + [MessageView(c * ChunkSize + k, Sender(msgs[k]) == selected)];
      }
      assert msgs[..|msgs|] == msgs;
      boxes := boxes[c := boxes[c].(views := views)];
      rendered := rendered[c := true];
    }

    /** The unmount branch of the observer (script.js): a mounted
        container keeps its height as `minHeight`, is emptied and marked
        unmounted; an unmounted one is left alone. */
    method Unmount(c: nat, offsetHeight: nat)
      requires Valid() && c < |boxes|
      modifies this
      ensures Valid()
      ensures messages == old(messages) && selected == old(selected) && chunks == old(chunks)
      ensures if c in old(rendered)
        then rendered == old(rendered) - {c} && boxes == old(boxes)[c := ChunkBox([], offsetHeight)]
        else rendered == old(rendered) && boxes == old(boxes)
    {
      if c in rendered {
        boxes := boxes[c := ChunkBox([], offsetHeight)];
        rendered := rendered - {c};
      }
    }

    /** The observer callback for container `c`: mount when it comes near
        the viewport, unmount otherwise. */
    method OnIntersection(c: nat, isIntersecting: bool, offsetHeight: nat)
      requires Valid() && c < |boxes|
      modifies this
      ensures Valid()
      ensures messages == old(messages) && selected == old(selected) && chunks == old(chunks)
      ensures isIntersecting <==> c in rendered
      ensures rendered == if isIntersecting then old(rendered)[c := true] else old(rendered) - {c}
      ensures isIntersecting ==>
        boxes == old(boxes)[c := ChunkBox(Views(c, chunks[c], selected), old(boxes)[c].minHeight)]
      ensures !isIntersecting ==>
        boxes == old(boxes)[c := ChunkBox([], if c in old(rendered) then offsetHeight else old(boxes)[c].minHeight)]
      ensures forall c' :: 0 <= c' < |boxes| && c' != c ==> boxes[c'] == old(boxes)[c']
    {
      if isIntersecting {
        RenderChunk(c, chunks[c]);
      } else {
        Unmount(c, offsetHeight);
      }
    }

    /** `jumpToMessage` (script.js): mount the chunk of message `i`, then
        look the message up by its tag; failing that, take the child at
        the local index, or the one before it. */
    method JumpToMessage(i: nat) returns (target: Target)
      requires Valid()
      modifies this
      ensures Valid()
      ensures messages == old(messages) && selected == old(selected) && chunks == old(chunks)
      ensures i / ChunkSize < |boxes| ==> rendered == old(rendered)[i / ChunkSize := true]
      ensures i / ChunkSize < |boxes| ==> boxes == old(boxes)[i / ChunkSize :=
        ChunkBox(Views(i / ChunkSize, chunks[i / ChunkSize], selected), old(boxes)[i / ChunkSize].minHeight)]
      ensures i / ChunkSize >= |boxes| ==> rendered == old(rendered) && boxes == old(boxes)
      ensures i < |messages| ==>
        && target == Element(i / ChunkSize, i % ChunkSize)
        && i / ChunkSize < |boxes| && i % ChunkSize < |boxes[i / ChunkSize].views|
        && boxes[i / ChunkSize].views[i % ChunkSize].msgIndex == i
      ensures i == |messages| && i % ChunkSize != 0 ==> target == Element(i / ChunkSize, i % ChunkSize - 1)
      ensures i > |messages| || (i == |messages| && i % ChunkSize == 0) ==> target == NoTarget
    {
      var chunkIndex := i / ChunkSize;
      if chunkIndex < |boxes| && chunkIndex !in rendered {
        var start := chunkIndex * ChunkSize;
        ChunkAt(messages, ChunkSize, chunkIndex);
        var msgs := messages[start..Min(start + ChunkSize, |messages|)];
        RenderChunk(chunkIndex, msgs);
      }
      target := Locate(i);
    }

    /** The lookup half of `jumpToMessage`, once chunk `i / 50` (if it
        exists) is mounted. */
    method Locate(i: nat) returns (target: Target)
      requires Valid()
      requires i / ChunkSize < |boxes| ==> i / ChunkSize in rendered
      ensures i < |messages| ==>
        && target == Element(i / ChunkSize, i % ChunkSize)
        && i / ChunkSize < |boxes| && i % ChunkSize < |boxes[i / ChunkSize].views|
        && boxes[i / ChunkSize].views[i % ChunkSize].msgIndex == i
      ensures i == |messages| && i % ChunkSize != 0 ==> target == Element(i / ChunkSize, i % ChunkSize - 1)
      ensures i > |messages| || (i == |messages| && i % ChunkSize == 0) ==> target == NoTarget
    {
      var chunkIndex: nat := i / ChunkSize;
      ChunkAt(messages, ChunkSize, chunkIndex);
      target := FindTagged(boxes, i, 0);
      if i < |messages| {
        Findable(i);
      } else {
        NotFindable(i);
        if chunkIndex < |boxes| {
          ChunkHolds(i);
        }
      }
      if target.NoTarget? && chunkIndex < |boxes| {
        var children := boxes[chunkIndex].views;
        var localIdx: nat := i - chunkIndex * ChunkSize;
        if localIdx < |children| {
          target := Element(chunkIndex, localIdx);
        } else if Max(0, localIdx - 1) < |children| {
          target := Element(chunkIndex, Max(0, localIdx - 1));
        }
      }
    }

    /** A mounted element sits at position `k < 50` of chunk `c`, is
        tagged `50 * c + k`, and that message exists; so its tag gives back
        `c` and `k`. */
    lemma TagShape(c: nat, k: nat)
      requires Valid() && c < |boxes| && k < |boxes[c].views|
      ensures c in rendered && k < ChunkSize
      ensures boxes[c].views[k].msgIndex == c * ChunkSize + k < |messages|
      ensures boxes[c].views[k].msgIndex / ChunkSize == c && boxes[c].views[k].msgIndex % ChunkSize == k
    {
      ChunksShape(messages, ChunkSize);
      ChunkAt(messages, ChunkSize, c);
    }

    /** Chunk `i / 50` holds message `i` exactly when message `i` exists;
        past the end, position `i % 50` is the chunk's length exactly when
        `i` is the message count. */
    lemma ChunkHolds(i: nat)
      requires Valid() && i / ChunkSize < |boxes|
      ensures i < |messages| <==> i % ChunkSize < |chunks[i / ChunkSize]|
      ensures i >= |messages| ==> (i == |messages| <==> i % ChunkSize == |chunks[i / ChunkSize]|)
    {
      ChunkAt(messages, ChunkSize, i / ChunkSize);
    }

    /** With chunk `i / 50` mounted, the lookup by tag finds message `i`
        at its local position. */
    lemma Findable(i: nat)
      requires Valid() && i < |messages| && i / ChunkSize in rendered
      ensures FindTagged(boxes, i, 0) == Element(i / ChunkSize, i % ChunkSize)
    {
      MessageInChunk(messages, i);
      assert boxes[i / ChunkSize].views[i % ChunkSize].msgIndex == i;
      var t := FindTagged(boxes, i, 0);
      TagShape(t.chunk, t.pos);
    }

    /** No element is tagged with an index past the last message. */
    lemma NotFindable(i: nat)
      requires Valid() && i >= |messages|
      ensures FindTagged(boxes, i, 0) == NoTarget
    {
      var t := FindTagged(boxes, i, 0);
      if t.Element? {
        TagShape(t.chunk, t.pos);
      }
    }
  }
}
