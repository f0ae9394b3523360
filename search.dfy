/** The search index (`buildSearchIndex`) and the batched search over it
    (`performSearch`). */
module Search {
  import opened Text
  import opened Normalize
  import opened Sorting
  import opened Fuzzy

  /** The `text` field of a message: absent or falsy, a string, or some other
      truthy value (for which the viewer falls back to `content`). */
  datatype TextField = NoText | Str(s: string) | NonString

  datatype Reaction = Reaction(reaction: string, actor: string)

  datatype MediaItem = MediaItem(uri: string)

  /** The fields of a message the index reads. A missing string field is the
      empty string and a missing list the empty list; a missing timestamp
      is 0. */
  datatype Message = Message(
    text: TextField,
    content: string,
    senderName: string,
    senderNameAlt: string,
    reactions: seq<Reaction>,
    media: seq<MediaItem>,
    photos: seq<MediaItem>,
    videos: seq<MediaItem>,
    audio: seq<MediaItem>,
    audioFiles: seq<MediaItem>,
    gifs: seq<MediaItem>,
    timestamp: nat,
    timestampMs: nat)

  /** One entry of the index. */
  datatype SearchRecord = SearchRecord(text: string, normalized: string, sender: string, timestamp: nat, idx: nat)

  /** A kept record with its score. */
  datatype Hit = Hit(score: int, item: SearchRecord)

  /** Records are scanned in batches of this many. */
  const Batch: nat := 500

  // ---------------------------------------------------------------------
  // buildSearchIndex

  /** The part contributed by `m.text`: the text itself when it is a
      non-empty string, `content` when it is another truthy value. */
  function TextPart(m: Message): seq<string>
  {
    match m.text
    case NoText => []
    case Str(s) => if s == [] then [] else [s]
    case NonString => [m.content]
  }

  /** `reaction + ' ' + actor` for each reaction. */
  function ReactionLabels(rs: seq<Reaction>): (r: seq<string>)
    ensures |r| == |rs|
    ensures forall k :: 0 <= k < |rs| ==> r[k] == rs[k].reaction + " " + rs[k].actor
  {
    if rs == [] then []
    else ReactionLabels(rs[..|rs| - 1]) + [rs[|rs| - 1].reaction + " " + rs[|rs| - 1].actor]
  }

  /** The non-empty URIs, in order. */
  function Uris(items: seq<MediaItem>): (r: seq<string>)
    ensures |r| <= |items|
  {
    if items == [] then []
    else Uris(items[..|items| - 1]) + (if items[|items| - 1].uri != [] then [items[|items| - 1].uri] else [])
  }

  /** All media items of a message: its media, photos, videos, audio,
      audio files and gifs, in that order. */
  function MediaItems(m: Message): seq<MediaItem>
  {
    m.media + m.photos + m.videos + m.audio + m.audioFiles + m.gifs
  }

  /** `x` appended when `c` holds. */
  function PushIf(parts: seq<string>, c: bool, x: string): seq<string>
  {
    if c then parts + [x] else parts
  }

  /** The text, content and sender parts. */
  function Identity(m: Message): seq<string>
  {
    PushIf(PushIf(TextPart(m), m.content != [], m.content), m.senderName != [], m.senderName)
  }

  /** The pieces of text the index joins for one message, in push order. */
  function Parts(m: Message): seq<string>
  {
    PushIf(Identity(m), m.reactions != [], Join(ReactionLabels(m.reactions), ' '))
    + Uris(MediaItems(m))
  }

  /** `senderName || sender_name || 'Unknown'`. */
  function Sender(m: Message): (r: string)
    ensures r != []
    ensures m.senderName != [] ==> r == m.senderName
  {
    if m.senderName != [] then m.senderName
    else if m.senderNameAlt != [] then m.senderNameAlt
    else "Unknown"
  }

  /** `timestamp || timestamp_ms || 0`. */
  function Timestamp(m: Message): (r: nat)
    ensures r == 0 <==> m.timestamp == 0 && m.timestampMs == 0
  {
    if m.timestamp != 0 then m.timestamp else m.timestampMs
  }

  function RecordOf(f: CharFolding, m: Message, i: nat): SearchRecord
  {
    var text := Join(Parts(m), ' ');
    SearchRecord(text, NormalizeForSearch(f, text), Sender(m), Timestamp(m), i)
  }

  /** The index of a message list: one record per message, at its position. */
  function Index(f: CharFolding, ms: seq<Message>): (r: seq<SearchRecord>)
    ensures |r| == |ms|
  {
    if ms == [] then [] else Index(f, ms[..|ms| - 1]) + [RecordOf(f, ms[|ms| - 1], |ms| - 1)]
  }

  /** Record `k` of the index is the record of message `k`, tagged `k`. */
  lemma {:induction false} IndexAt(f: CharFolding, ms: seq<Message>, k: nat)
    requires k < |ms|
    ensures Index(f, ms)[k] == RecordOf(f, ms[k], k)
  {
    if k < |ms| - 1 {
      IndexAt(f, ms[..|ms| - 1], k);
    }
  }

  /** The part-building of `buildSearchIndex` for one message: conditional
      pushes, then one push per media item with a URI. */
  method BuildParts(m: Message) returns (parts: seq<string>)
    ensures parts == Parts(m)
  {
    parts := [];
    match m.text {
      case NoText =>
      case Str(s) => if s != [] { parts := parts + [s]; }
      case NonString => parts := parts + [m.content];
    }
    assert parts == TextPart(m);
    if m.content != [] { parts := parts + [m.content]; }
    assert parts == PushIf(TextPart(m), m.content != [], m.content);
    if m.senderName != [] { parts := parts + [m.senderName]; }
    assert parts == Identity(m);
    if m.reactions != [] { parts := parts + [Join(ReactionLabels(m.reactions), ' ')]; }
    parts := PushUris(parts, MediaItems(m));
  }

  /** Appends the URI of each media item that has a non-empty one, in
      order. */
  method PushUris(head: seq<string>, items: seq<MediaItem>) returns (parts: seq<string>)
    ensures parts == head + Uris(items)
  {
    parts := head;
    for k := 0 to |items|
      invariant parts == head + Uris(items[..k])
    {
      assert items[..k + 1][..k] == items[..k];
      if items[k].uri != [] {
        parts := parts + [items[k].uri];
      }
    }
    assert items[..|items|] == items;
  }

  /** Exactly the non-empty URIs are kept. */
  lemma {:induction false} UrisIff(items: seq<MediaItem>, u: string)
    ensures u in Uris(items) <==> u != [] && exists it :: it in items && it.uri == u
  {
    if items != [] {
      var init := items[..|items| - 1];
      UrisIff(init, u);
      assert items == init + [items[|items| - 1]];
    }
  }

  /** `buildSearchIndex` (script.js): one record per message, `idx` its
      position. */
  method BuildSearchIndex(f: CharFolding, messages: seq<Message>) returns (index: seq<SearchRecord>)
    ensures index == Index(f, messages)
  {
    index := [];
    for i := 0 to |messages|
      invariant index == Index(f, messages[..i])
    {
      var m := messages[i];
      var parts := BuildParts(m);
      var text := Join(parts, ' ');
      var record := SearchRecord(text, NormalizeForSearch(f, text), Sender(m), Timestamp(m), i);
      IndexSnoc(f, messages, i, index, record);
      index := index + [record];
    }
    assert messages[..|messages|] == messages;
  }

  lemma IndexSnoc(f: CharFolding, ms: seq<Message>, i: nat, index: seq<SearchRecord>, record: SearchRecord)
    requires i < |ms| && index == Index(f, ms[..i]) && record == RecordOf(f, ms[i], i)
    ensures index + [record] == Index(f, ms[..i + 1])
  {
    assert ms[..i + 1][..i] == ms[..i];
  }

  /** Every joined part occurs in the joined string. */
  lemma {:induction false} JoinContains(parts: seq<string>, sep: char, k: nat)
    requires k < |parts|
    ensures Contains(Join(parts, sep), parts[k])
  {
    var j := Join(parts, sep);
    if |parts| == 1 {
      assert OccursAt(j, parts[k], 0);
    } else if k == 0 {
      assert j[0..|parts[0]|] == parts[0];
      assert OccursAt(j, parts[k], 0);
    } else {
      JoinContains(parts[1..], sep, k - 1);
      var rest := Join(parts[1..], sep);
      ContainsIff(rest, parts[k]);
      var p :| OccursAt(rest, parts[k], p);
      var off := |parts[0]| + 1;
      assert j == parts[0] + [sep] + rest;
      assert j[off + p..off + p + |parts[k]|] == rest[p..p + |parts[k]|];
      assert OccursAt(j, parts[k], off + p);
      ContainsIff(j, parts[k]);
    }
  }

  lemma JoinHas(parts: seq<string>, sep: char, x: string)
    requires x in parts
    ensures Contains(Join(parts, sep), x)
  {
    var k :| 0 <= k < |parts| && parts[k] == x;
    JoinContains(parts, sep, k);
  }

  /** What a message contributes is findable in the joined text: a string
      text, the content, the sender name and every media URI. */
  lemma PartsFindable(m: Message)
    ensures var t := Join(Parts(m), ' ');
      && (m.text.Str? ==> Contains(t, m.text.s))
      && Contains(t, m.content)
      && Contains(t, m.senderName)
      && (forall it :: it in MediaItems(m) ==> Contains(t, it.uri))
  {
    var t := Join(Parts(m), ' ');
    var ps := Parts(m);
    var id := Identity(m);
    var head := PushIf(id, m.reactions != [], Join(ReactionLabels(m.reactions), ' '));
    var us := Uris(MediaItems(m));
    assert ps == head + us;
    assert forall x :: x in id ==> x in head;
    assert OccursAt(t, [], 0);
    if m.text.Str? && m.text.s != [] {
      assert m.text.s in TextPart(m);
      JoinHas(ps, ' ', m.text.s);
    }
    if m.content != [] {
      JoinHas(ps, ' ', m.content);
    }
    if m.senderName != [] {
      JoinHas(ps, ' ', m.senderName);
    }
    forall it | it in MediaItems(m) ensures Contains(t, it.uri) {
      if it.uri != [] {
        UrisIff(MediaItems(m), it.uri);
        JoinHas(ps, ' ', it.uri);
      }
    }
  }

  /** Record `i` of an index carries its position, a normalized text in
      search form, a non-empty sender, and a text in which everything the
      message contributes is findable. */
  lemma RecordShape(f: CharFolding, ms: seq<Message>, i: nat)
    requires i < |ms|
    ensures var r := Index(f, ms)[i];
      && r.idx == i
      && r.text == Join(Parts(ms[i]), ' ')
      && InSearchForm(r.normalized)
      && r.sender != []
  {
    IndexAt(f, ms, i);
  }

  // ---------------------------------------------------------------------
  // performSearch

  /** The records among the first `n` of `s` that `score` puts above zero,
      in list order, with their scores. */
  function Keep(s: seq<SearchRecord>, score: SearchRecord -> int, n: nat): (r: seq<Hit>)
    requires n <= |s|
    ensures |r| <= n
  {
    if n == 0 then []
    else Keep(s, score, n - 1) + (if score(s[n - 1]) > 0 then [Hit(score(s[n - 1]), s[n - 1])] else [])
  }

  /** The records scoring above zero against `q`, in index order, with
      their scores. */
  function Kept(q: string, s: seq<SearchRecord>): seq<Hit>
  {
    Keep(s, ScoreOf(q), |s|)
  }

  /** A record's score against `q` is that of its normalized text. */
  function ScoreOf(q: string): SearchRecord -> int
  {
    (rec: SearchRecord) => Score(q, rec.normalized)
  }

  function NegScore(h: Hit): int { -h.score }

  function IdxOf(h: Hit): int { h.item.idx }

  /** The result of `performSearch`: nothing for a query that normalizes to
      the empty string, otherwise the kept records stably sorted by
      descending score. */
  function Search(f: CharFolding, query: string, index: seq<SearchRecord>): (r: seq<Hit>)
    ensures NormalizeForSearch(f, query) == [] ==> r == []
    ensures |r| <= |index|
  {
    var q := NormalizeForSearch(f, query);
    if q == [] then []
    else
      var kept := Kept(q, index);
      assert |SortBy(kept, NegScore)| == |kept| by {
        assert |multiset(SortBy(kept, NegScore))| == |multiset(kept)|;
      }
      SortBy(kept, NegScore)
  }

  /** The progress value after the batch starting at `i`: `i + 500` as a
      percentage of `n`, rounded half up and capped at 100. */
  function Percent(i: nat, n: nat): (r: int)
    requires n > 0
    ensures 0 <= r <= 100
  {
    DivAtLeast(200 * (i + Batch) + n, 2 * n, 0);
    Min(100, (200 * (i + Batch) + n) / (2 * n))
  }

  /** The number of batches, `ceil(n / 500)`. */
  function Batches(n: nat): nat
  {
    (n + Batch - 1) / Batch
  }

  /** The values passed to `onProgress`, one per batch. */
  function Progress(n: nat): seq<int>
  {
    if n == 0 then [] else seq(Batches(n), b requires 0 <= b => Percent(b * Batch, n))
  }

  /** `b` batches fall short of `n` records exactly when there are more
      than `b` batches. */
  lemma BatchCount(b: nat, n: nat)
    ensures (b * Batch < n) == (b < Batches(n))
  {
  }

  /** `performSearch` (script.js), with `onProgress` recorded as the list
      of the values it receives. */
  method PerformSearch(f: CharFolding, query: string, index: seq<SearchRecord>)
    returns (results: seq<Hit>, progress: seq<int>)
    ensures results == Search(f, query, index)
    ensures progress == if NormalizeForSearch(f, query) == [] then [] else Progress(|index|)
  {
    results, progress := [], [];
    var normalizedQuery := NormalizeForSearch(f, query);
    if normalizedQuery == [] {
      return;
    }
    results, progress := ScanAll(ScoreOf(normalizedQuery), normalizedQuery, index);
    results := SortBy(results, NegScore);
  }

  /** `score` gives every record its score against `q`. The link is only
      drawn where a record's score is actually computed. */
  ghost predicate Scoring(score: SearchRecord -> int, q: string)
  {
    forall rec {:trigger Score(q, rec.normalized)} :: score(rec) == Score(q, rec.normalized)
  }

  /** The batch loop of `performSearch`: every batch of `Batch` records is
      scanned in turn, and a progress value is reported after each. */
  method ScanAll(ghost score: SearchRecord -> int, q: string, index: seq<SearchRecord>)
    returns (results: seq<Hit>, progress: seq<int>)
    requires Scoring(score, q)
    ensures results == Keep(index, score, |index|)
    ensures progress == Progress(|index|)
  {
    results, progress := [], [];
    var i := 0;
    while i < |index|
      invariant i == |progress| * Batch
      invariant |progress| <= Batches(|index|)
      invariant progress == Progress(|index|)[..|progress|]
      invariant results == Keep(index, score, Min(i, |index|))
      decreases |index| - i
    {
      BatchCount(|progress|, |index|);
      results := ScanBatch(score, q, index, i, Min(i + Batch, |index|), results);
      ProgressStep(progress, i, |index|);
      progress := progress + [Percent(i, |index|)];
      i := i + Batch;
    }
    BatchCount(|progress|, |index|);
  }

  /** The inner loop of `performSearch`: score each record of the batch
      `index[lo..hi]` and push those scoring above zero. */
  method ScanBatch(ghost score: SearchRecord -> int, q: string, index: seq<SearchRecord>, lo: nat, hi: nat, acc: seq<Hit>)
    returns (results: seq<Hit>)
    requires Scoring(score, q)
    requires lo <= hi <= |index|
    requires acc == Keep(index, score, lo)
    ensures results == Keep(index, score, hi)
  {
    results := acc;
    for k := lo to hi
      invariant results == Keep(index, score, k)
    {
      results := ScanRecord(score, q, index, k, results);
    }
  }

  /** One step of the inner loop: score record `k` and push its hit when
      the score is above zero. */
  method ScanRecord(ghost score: SearchRecord -> int, q: string, index: seq<SearchRecord>, k: nat, acc: seq<Hit>)
    returns (results: seq<Hit>)
    requires Scoring(score, q)
    requires k < |index|
    requires acc == Keep(index, score, k)
    ensures results == Keep(index, score, k + 1)
  {
    var s := FuzzyScore(q, index[k].normalized);
    results := acc;
    if s > 0 {
      results := results + [Hit(s, index[k])];
    }
  }

  /** One more progress value extends the recorded prefix. */
  lemma ProgressStep(progress: seq<int>, i: nat, n: nat)
    requires |progress| < Batches(n) && i == |progress| * Batch
    requires progress == Progress(n)[..|progress|]
    ensures n > 0
    ensures progress + [Percent(i, n)] == Progress(n)[..|progress| + 1]
  {
  }

  /** `h` is the hit `score` gives `rec`, and it is above zero. */
  predicate HitOf(score: SearchRecord -> int, rec: SearchRecord, h: Hit)
  {
    h == Hit(score(rec), rec) && h.score > 0
  }

  /** A hit is kept exactly when it is the positive hit of one of the
      first `n` records. */
  lemma {:induction false} KeepIff(s: seq<SearchRecord>, score: SearchRecord -> int, n: nat, h: Hit)
    requires n <= |s|
    ensures h in Keep(s, score, n) <==> exists k :: 0 <= k < n && HitOf(score, s[k], h)
  {
    if n > 0 {
      KeepIff(s, score, n - 1, h);
      var tail := if score(s[n - 1]) > 0 then [Hit(score(s[n - 1]), s[n - 1])] else [];
      assert Keep(s, score, n) == Keep(s, score, n - 1) + tail;
      if h in Keep(s, score, n) && h !in Keep(s, score, n - 1) {
        assert HitOf(score, s[n - 1], h);
      }
    }
  }

  /** A hit is kept exactly when its record is in the list and scores
      above zero against `q`, with that score. */
  lemma KeptIff(q: string, s: seq<SearchRecord>, h: Hit)
    ensures h in Kept(q, s) <==>
      exists k :: 0 <= k < |s| && h == Hit(Score(q, s[k].normalized), s[k]) && h.score > 0
  {
    KeepIff(s, ScoreOf(q), |s|, h);
  }

  predicate InIdxOrder(r: seq<Hit>)
  {
    forall i, j :: 0 <= i < j < |r| ==> IdxOf(r[i]) < IdxOf(r[j])
  }

  /** Kept hits stay in list order: when the records' `idx` increase, so
      do the hits'. */
  lemma {:induction false} KeepOrdered(s: seq<SearchRecord>, score: SearchRecord -> int, n: nat)
    requires n <= |s|
    requires forall i, j :: 0 <= i < j < |s| ==> s[i].idx < s[j].idx
    ensures InIdxOrder(Keep(s, score, n))
  {
    if n > 0 {
      var last := s[n - 1];
      KeepOrdered(s, score, n - 1);
      var r0 := Keep(s, score, n - 1);
      forall h | h in r0 ensures h.item.idx < last.idx {
        KeepIff(s, score, n - 1, h);
      }
      var r := Keep(s, score, n);
      assert r == r0 + (if score(last) > 0 then [Hit(score(last), last)] else []);
      forall i, j | 0 <= i < j < |r| ensures r[i].item.idx < r[j].item.idx {
        if j >= |r0| {
          assert r[j].item == last;
          assert r[i] == r0[i];
          assert r0[i] in r0;
        } else {
          assert r[i] == r0[i] && r[j] == r0[j];
        }
      }
    }
  }

  /** The results are exactly the records scoring above zero (as a
      multiset), ranked by descending score, and records with equal scores
      stay in ascending `idx` when the index is in `idx` order. */
  lemma SearchRanked(f: CharFolding, query: string, index: seq<SearchRecord>)
    requires forall i, j :: 0 <= i < j < |index| ==> index[i].idx < index[j].idx
    ensures var q := NormalizeForSearch(f, query);
      q != [] ==> multiset(Search(f, query, index)) == multiset(Kept(q, index))
    ensures SortedByThen(Search(f, query, index), NegScore, IdxOf)
  {
    var q := NormalizeForSearch(f, query);
    if q != [] {
      var kept := Kept(q, index);
      KeepOrdered(index, ScoreOf(q), |index|);
      SortByStable(kept, NegScore, IdxOf);
    }
  }

  /** A hit is in the results exactly when its record is in the index and
      scores above zero against the normalized query. */
  lemma SearchMembers(f: CharFolding, query: string, index: seq<SearchRecord>, h: Hit)
    ensures h in Search(f, query, index) <==>
      var q := NormalizeForSearch(f, query);
      q != [] && exists k :: 0 <= k < |index| && h == Hit(Score(q, index[k].normalized), index[k]) && h.score > 0
  {
    var q := NormalizeForSearch(f, query);
    if q != [] {
      KeptIff(q, index, h);
      var r := SortBy(Kept(q, index), NegScore);
      assert h in r <==> h in multiset(r);
    }
  }

  /** A record whose normalized text contains the normalized query is
      always found, with the substring score. */
  lemma SubstringFound(f: CharFolding, query: string, index: seq<SearchRecord>, k: nat)
    requires k < |index|
    requires NormalizeForSearch(f, query) != []
    requires Contains(index[k].normalized, NormalizeForSearch(f, query))
    ensures var q := NormalizeForSearch(f, query);
      Hit(100 + Min(50, |q|), index[k]) in Search(f, query, index)
  {
    var q := NormalizeForSearch(f, query);
    assert index[k].normalized != [];
    SearchMembers(f, query, index, Hit(100 + Min(50, |q|), index[k]));
  }

  /** The search over a freshly built index, ranked with ties in message
      order. */
  lemma IndexSearchRanked(f: CharFolding, query: string, ms: seq<Message>)
    ensures SortedByThen(Search(f, query, Index(f, ms)), NegScore, IdxOf)
  {
    var ix := Index(f, ms);
    forall i, j | 0 <= i < j < |ix| ensures ix[i].idx < ix[j].idx {
      IndexAt(f, ms, i);
      IndexAt(f, ms, j);
    }
    SearchRanked(f, query, ix);
  }

  lemma MulLe(x: int, y: int, d: int)
    requires d > 0 && x <= y
    ensures x * d <= y * d
  {
    assert y * d == x * d + (y - x) * d;
  }

  lemma MulLess(x: int, y: int, d: int)
    requires d > 0 && x * d < y * d
    ensures x < y
  {
    if x >= y {
      MulLe(y, x, d);
    }
  }

  lemma DivMono(a: nat, b: nat, d: nat)
    requires a <= b && d > 0
    ensures a / d <= b / d
  {
    assert (a / d) * d <= a;
    assert b < (b / d + 1) * d;
    MulLess(a / d, b / d + 1, d);
  }

  lemma DivAtLeast(a: nat, d: nat, q: nat)
    requires d > 0 && a >= q * d
    ensures a / d >= q
  {
    assert a < (a / d + 1) * d;
    MulLess(q, a / d + 1, d);
  }

  /** Later batches report at least as much progress. */
  lemma PercentMono(i: nat, j: nat, n: nat)
    requires i <= j && n > 0
    ensures Percent(i, n) <= Percent(j, n)
  {
    DivMono(200 * (i + Batch) + n, 200 * (j + Batch) + n, 2 * n);
  }

  /** A batch reaching the end of the index reports 100. */
  lemma PercentFull(i: nat, n: nat)
    requires n > 0 && i + Batch >= n
    ensures Percent(i, n) == 100
  {
    DivAtLeast(200 * (i + Batch) + n, 2 * n, 100);
  }

  /** Progress values lie in 0..100, never decrease, and the last is 100;
      there is one per batch. */
  lemma ProgressShape(n: nat)
    ensures |Progress(n)| == Batches(n)
    ensures forall k :: 0 <= k < |Progress(n)| ==> 0 <= Progress(n)[k] <= 100
    ensures forall j, k :: 0 <= j < k < |Progress(n)| ==> Progress(n)[j] <= Progress(n)[k]
    ensures n > 0 ==> Progress(n)[|Progress(n)| - 1] == 100
  {
    if n > 0 {
      forall j, k | 0 <= j < k < |Progress(n)| ensures Progress(n)[j] <= Progress(n)[k] {
        ProgressMono(n, j, k);
      }
      var b := Batches(n) - 1;
      BatchCount(b + 1, n);
      PercentFull(b * Batch, n);
    }
  }

  lemma ProgressMono(n: nat, j: nat, k: nat)
    requires j <= k < |Progress(n)|
    ensures Progress(n)[j] <= Progress(n)[k]
  {
    MulLe(j, k, Batch);
    PercentMono(j * Batch, k * Batch, n);
  }


}
