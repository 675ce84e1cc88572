/**
 * `CommentsHelper`: how a card's timeline of comments, boosts and assignments is laid
 * out. The combined list is sorted by creation time; a summary line names the first
 * assignment and counts the leading boosts per creator; the rest, from the first
 * comment on, is cut into chunks, each either one comment or a run of boosts and
 * assignments shown together. Users are identified by integer ids; the HTML is not
 * modelled.
 */
module CommentsHelper {
  import opened Wrappers

  datatype Item =
    | Comment(createdAt: int)
    | Boost(createdAt: int, creator: int)
    | Assignment(createdAt: int, assignee: int)

  /** Non-decreasing creation times. */
  predicate SortedByCreation(s: seq<Item>) {
    forall i, j :: 0 <= i < j < |s| ==> s[i].createdAt <= s[j].createdAt
  }

  /** `x` inserted before the first item of `s` created later than it. */
  function Insert(x: Item, s: seq<Item>): seq<Item> {
    if s == [] || x.createdAt <= s[0].createdAt then [x] + s
    else [s[0]] + Insert(x, s[1..])
  }

  /** An insertion sort by creation time. */
  function SortByCreation(s: seq<Item>): seq<Item> {
    if s == [] then [] else Insert(s[0], SortByCreation(s[1..]))
  }

  lemma {:induction false} InsertHead(x: Item, s: seq<Item>)
    ensures |Insert(x, s)| == |s| + 1
    ensures Insert(x, s)[0] == x || (s != [] && Insert(x, s)[0] == s[0])
    decreases |s|
  {
    if s != [] && x.createdAt > s[0].createdAt {
      InsertHead(x, s[1..]);
    }
  }

  lemma {:induction false} InsertSorted(x: Item, s: seq<Item>)
    requires SortedByCreation(s)
    ensures SortedByCreation(Insert(x, s))
    decreases |s|
  {
    if s != [] && x.createdAt > s[0].createdAt {
      var rest := Insert(x, s[1..]);
      InsertSorted(x, s[1..]);
      InsertHead(x, s[1..]);
      var r := [s[0]] + rest;
      assert s[0].createdAt <= rest[0].createdAt;
      forall i, j | 0 <= i < j < |r| ensures r[i].createdAt <= r[j].createdAt {
        if i == 0 {
          assert rest[0].createdAt <= rest[j - 1].createdAt;
        } else {
          assert r[i] == rest[i - 1] && r[j] == rest[j - 1];
        }
      }
    }
  }

  lemma {:induction false} InsertMultiset(x: Item, s: seq<Item>)
    ensures multiset(Insert(x, s)) == multiset(s) + multiset{x}
    decreases |s|
  {
    if s != [] && x.createdAt > s[0].createdAt {
      InsertMultiset(x, s[1..]);
      assert s == [s[0]] + s[1..];
    }
  }

  /** The insertion sort orders by creation time and keeps exactly the same items. */
  lemma {:induction false} SortByCreationSpec(s: seq<Item>)
    ensures SortedByCreation(SortByCreation(s))
    ensures multiset(SortByCreation(s)) == multiset(s)
    decreases |s|
  {
    if s != [] {
      SortByCreationSpec(s[1..]);
      InsertSorted(s[0], SortByCreation(s[1..]));
      InsertMultiset(s[0], SortByCreation(s[1..]));
      assert s == [s[0]] + s[1..];
    }
  }

  /**
   * `combine_and_sort_items`: comments, boosts and assignments in one list ordered by
   * creation time. Ruby's `sort_by` is not stable, so only the multiset of items and
   * their order by time are promised, not the order among equal times.
   */
  function CombineAndSort(comments: seq<Item>, boosts: seq<Item>, assignments: seq<Item>): (r: seq<Item>)
    ensures SortedByCreation(r)
    ensures multiset(r) == multiset(comments + boosts + assignments)
  {
    SortByCreationSpec(comments + boosts + assignments);
    SortByCreation(comments + boosts + assignments)
  }

  /** `find { |item| item.is_a?(Assignment) }`: the first assignment of the list, if any. */
  function FirstAssignment(items: seq<Item>): (r: Option<Item>)
    ensures r.None? <==> forall i :: 0 <= i < |items| ==> !items[i].Assignment?
    ensures r.Some? ==> exists i :: 0 <= i < |items| && items[i] == r.value && r.value.Assignment?
                          && forall j :: 0 <= j < i ==> !items[j].Assignment?
  {
    if items == [] then None
    else if items[0].Assignment? then Some(items[0])
    else
      var r := FirstAssignment(items[1..]);
      assert forall i :: 0 < i < |items| ==> items[i] == items[1..][i - 1];
      r
  }

  /** `initial_assignment_info`: who the first assignment went to, if there is one. */
  function InitialAssignee(items: seq<Item>): (r: Option<int>)
    ensures r.None? <==> forall i :: 0 <= i < |items| ==> !items[i].Assignment?
    ensures r.Some? ==> exists i :: 0 <= i < |items| && items[i].Assignment? && items[i].assignee == r.value
                          && forall j :: 0 <= j < i ==> !items[j].Assignment?
  {
    match FirstAssignment(items)
    case None => None
    case Some(a) => Some(a.assignee)
  }

  /** `take_while { |item| item.is_a?(Boost) }`. */
  function LeadingBoosts(items: seq<Item>): (run: seq<Item>)
    ensures |run| <= |items| && run == items[..|run|]
    ensures forall i :: 0 <= i < |run| ==> run[i].Boost?
    ensures |run| == |items| || !items[|run|].Boost?
  {
    if items == [] || !items[0].Boost? then []
    else
      var rest := LeadingBoosts(items[1..]);
      assert [items[0]] + items[1..][..|rest|] == items[..|rest| + 1];
      [items[0]] + rest
  }

  /** How many items of `creators` are `c`. */
  function Occurrences(creators: seq<int>, c: int): nat {
    if creators == [] then 0
    else Occurrences(creators[..|creators| - 1], c) + (if creators[|creators| - 1] == c then 1 else 0)
  }

  /** The tally after one more boost by `c`: its count goes up, or it is appended with count 1. */
  function Bump(tally: seq<(int, nat)>, c: int): seq<(int, nat)> {
    if tally == [] then [(c, 1)]
    else if tally[0].0 == c then [(c, tally[0].1 + 1)] + tally[1..]
    else [tally[0]] + Bump(tally[1..], c)
  }

  /**
   * `group_by(&:creator).transform_values(&:count)` on the creators of a list of boosts:
   * one entry per creator, in order of first appearance.
   */
  function Tally(creators: seq<int>): seq<(int, nat)> {
    if creators == [] then []
    else Bump(Tally(creators[..|creators| - 1]), creators[|creators| - 1])
  }

  /** The count a tally records for `c` (0 when `c` has no entry). */
  function CountIn(tally: seq<(int, nat)>, c: int): nat {
    if tally == [] then 0
    else if tally[0].0 == c then tally[0].1
    else CountIn(tally[1..], c)
  }

  function Total(tally: seq<(int, nat)>): nat {
    if tally == [] then 0 else tally[0].1 + Total(tally[1..])
  }

  predicate Keyed(tally: seq<(int, nat)>, c: int) {
    exists i :: 0 <= i < |tally| && tally[i].0 == c
  }

  /** Each creator has one entry, and every count is positive. */
  predicate WellFormed(tally: seq<(int, nat)>) {
    && (forall i, j :: 0 <= i < j < |tally| ==> tally[i].0 != tally[j].0)
    && (forall i :: 0 <= i < |tally| ==> tally[i].1 > 0)
  }

  lemma KeyedCons(h: (int, nat), t: seq<(int, nat)>, k: int)
    ensures Keyed([h] + t, k) <==> h.0 == k || Keyed(t, k)
  {
    if Keyed(t, k) {
      var m :| 0 <= m < |t| && t[m].0 == k;
      assert ([h] + t)[m + 1].0 == k;
    }
    if h.0 == k {
      assert ([h] + t)[0].0 == k;
    }
    if Keyed([h] + t, k) && h.0 != k {
      var m :| 0 <= m < |[h] + t| && ([h] + t)[m].0 == k;
      assert t[m - 1].0 == k;
    }
  }

  lemma {:induction false} BumpKeys(tally: seq<(int, nat)>, c: int, k: int)
    ensures Keyed(Bump(tally, c), k) <==> Keyed(tally, k) || k == c
    decreases |tally|
  {
    if tally == [] {
      assert Bump(tally, c)[0].0 == c;
    } else if tally[0].0 == c {
      KeyedCons(tally[0], tally[1..], k);
      KeyedCons((c, tally[0].1 + 1), tally[1..], k);
      assert tally == [tally[0]] + tally[1..];
    } else {
      BumpKeys(tally[1..], c, k);
      KeyedCons(tally[0], tally[1..], k);
      KeyedCons(tally[0], Bump(tally[1..], c), k);
      assert tally == [tally[0]] + tally[1..];
    }
  }

  lemma {:induction false} BumpWellFormed(tally: seq<(int, nat)>, c: int)
    requires WellFormed(tally)
    ensures WellFormed(Bump(tally, c))
    decreases |tally|
  {
    if tally != [] && tally[0].0 != c {
      var rest := tally[1..];
      BumpWellFormed(rest, c);
      var b := Bump(tally, c);
      assert b == [tally[0]] + Bump(rest, c);
      forall j | 0 < j < |b| ensures b[0].0 != b[j].0 {
        assert b[j] == Bump(rest, c)[j - 1];
        BumpKeys(rest, c, b[j].0);
      }
    }
  }

  lemma {:induction false} BumpCount(tally: seq<(int, nat)>, c: int, k: int)
    requires WellFormed(tally)
    ensures CountIn(Bump(tally, c), k) == CountIn(tally, k) + (if k == c then 1 else 0)
    decreases |tally|
  {
    if tally != [] && tally[0].0 != c {
      BumpCount(tally[1..], c, k);
    }
  }

  lemma {:induction false} BumpTotal(tally: seq<(int, nat)>, c: int)
    ensures Total(Bump(tally, c)) == Total(tally) + 1
    decreases |tally|
  {
    if tally != [] && tally[0].0 != c {
      BumpTotal(tally[1..], c);
    }
  }

  /** One more boost by `c`: the tally stays well formed, gains `c` if new, and counts one more for `c` only. */
  lemma BumpSpec(tally: seq<(int, nat)>, c: int)
    requires WellFormed(tally)
    ensures WellFormed(Bump(tally, c))
    ensures forall k :: Keyed(Bump(tally, c), k) <==> Keyed(tally, k) || k == c
    ensures forall k :: CountIn(Bump(tally, c), k) == CountIn(tally, k) + (if k == c then 1 else 0)
    ensures Total(Bump(tally, c)) == Total(tally) + 1
  {
    BumpWellFormed(tally, c);
    BumpTotal(tally, c);
    forall k ensures Keyed(Bump(tally, c), k) <==> Keyed(tally, k) || k == c {
      BumpKeys(tally, c, k);
    }
    forall k ensures CountIn(Bump(tally, c), k) == CountIn(tally, k) + (if k == c then 1 else 0) {
      BumpCount(tally, c, k);
    }
  }

  /**
   * The tally of a list of boosts: one entry per creator and no other, each with the
   * number of that creator's boosts, so the counts add up to the number of boosts.
   */
  lemma {:induction false} TallySpec(creators: seq<int>)
    ensures WellFormed(Tally(creators))
    ensures forall c :: Keyed(Tally(creators), c) <==> c in creators
    ensures forall c :: CountIn(Tally(creators), c) == Occurrences(creators, c)
    ensures Total(Tally(creators)) == |creators|
    decreases |creators|
  {
    if creators != [] {
      var init := creators[..|creators| - 1];
      var last := creators[|creators| - 1];
      TallySpec(init);
      BumpSpec(Tally(init), last);
      assert forall c :: c in creators <==> c in init || c == last by {
        assert creators == init + [last];
      }
    }
  }

  /** The creators of a tally, in its order. */
  function KeysOf(tally: seq<(int, nat)>): seq<int> {
    if tally == [] then [] else [tally[0].0] + KeysOf(tally[1..])
  }

  /** The distinct values of `cs`, each where it first appears. */
  function FirstAppearances(cs: seq<int>): seq<int> {
    if cs == [] then []
    else
      var init := FirstAppearances(cs[..|cs| - 1]);
      if cs[|cs| - 1] in cs[..|cs| - 1] then init else init + [cs[|cs| - 1]]
  }

  lemma KeysOfCons(h: (int, nat), t: seq<(int, nat)>)
    ensures KeysOf([h] + t) == [h.0] + KeysOf(t)
  {
    assert ([h] + t)[1..] == t;
  }

  lemma {:induction false} BumpOrder(tally: seq<(int, nat)>, c: int)
    ensures KeysOf(Bump(tally, c)) == if Keyed(tally, c) then KeysOf(tally) else KeysOf(tally) + [c]
    decreases |tally|
  {
    if tally == [] {
      assert KeysOf(Bump(tally, c)) == [c];
    } else {
      var rest := tally[1..];
      KeyedCons(tally[0], rest, c);
      assert tally == [tally[0]] + rest;
      KeysOfCons(tally[0], rest);
      if tally[0].0 == c {
        KeysOfCons((c, tally[0].1 + 1), rest);
      } else {
        var b := Bump(rest, c);
        assert Bump(tally, c) == [tally[0]] + b;
        BumpOrder(rest, c);
        KeysOfCons(tally[0], b);
        if !Keyed(rest, c) {
          assert KeysOf(b) == KeysOf(rest) + [c];
          assert [tally[0].0] + (KeysOf(rest) + [c]) == ([tally[0].0] + KeysOf(rest)) + [c];
        }
      }
    }
  }

  /** `group_by` keeps its groups in the order their creators first appear. */
  lemma {:induction false} TallyOrder(creators: seq<int>)
    ensures KeysOf(Tally(creators)) == FirstAppearances(creators)
    decreases |creators|
  {
    if creators != [] {
      var init := creators[..|creators| - 1];
      TallyOrder(init);
      TallySpec(init);
      BumpOrder(Tally(init), creators[|creators| - 1]);
    }
  }

  /** The creators of a list of boosts, in order. */
  function Creators(boosts: seq<Item>): (cs: seq<int>)
    requires forall i :: 0 <= i < |boosts| ==> boosts[i].Boost?
    ensures |cs| == |boosts|
    ensures forall i :: 0 <= i < |cs| ==> cs[i] == boosts[i].creator
  {
    seq(|boosts|, i requires 0 <= i < |boosts| => boosts[i].creator)
  }

  /**
   * `render_initial_boosts`, counting only: the per-creator counts of the leading run of
   * boosts, or nil when the list does not start with a boost.
   */
  function InitialBoostCounts(items: seq<Item>): (r: Option<seq<(int, nat)>>)
    ensures r.None? <==> LeadingBoosts(items) == []
  {
    var run := LeadingBoosts(items);
    if run == [] then None else Some(Tally(Creators(run)))
  }

  /** The initial boost counts: one per creator of the leading run, adding up to its length. */
  lemma InitialBoostCountsSpec(items: seq<Item>)
    requires InitialBoostCounts(items).Some?
    ensures var t := InitialBoostCounts(items).value;
            var run := LeadingBoosts(items);
            && WellFormed(t)
            && Total(t) == |run|
            && forall c :: CountIn(t, c) == Occurrences(Creators(run), c)
  {
    TallySpec(Creators(LeadingBoosts(items)));
  }

  /** `take_while { |item| !item.is_a?(Comment) }.count`. */
  function LeadingNonComments(items: seq<Item>): (n: nat)
    ensures n <= |items|
    ensures forall i :: 0 <= i < n ==> !items[i].Comment?
    ensures n == |items| || items[n].Comment?
  {
    if items == [] || items[0].Comment? then 0
    else 1 + LeadingNonComments(items[1..])
  }

  /** `combined_collection.drop(initial_count)`: everything from the first comment on. */
  function RemainingItems(items: seq<Item>): (r: seq<Item>)
    ensures |r| <= |items|
    ensures r == [] || r[0].Comment?
    ensures r == items[|items| - |r|..]
    ensures forall i :: 0 <= i < |items| - |r| ==> !items[i].Comment?
  {
    items[LeadingNonComments(items)..]
  }

  /** `grouped_item?`: boosts and assignments are shown grouped, a comment on its own. */
  predicate Grouped(item: Item): (grouped: bool)
    ensures grouped <==> !item.Comment?
  {
    item.Boost? || item.Assignment?
  }

  /** `chunk_while { |i, j| grouped_item?(i) && grouped_item?(j) }`. */
  function Chunks(items: seq<Item>): (cs: seq<seq<Item>>)
    ensures items == [] <==> cs == []
    ensures cs != [] ==> cs[0] != [] && cs[0][0] == items[0]
  {
    if items == [] then []
    else
      var rest := Chunks(items[1..]);
      if Merges(items) then [[items[0]] + rest[0]] + rest[1..]
      else [[items[0]]] + rest
  }

  function Flatten(cs: seq<seq<Item>>): seq<Item> {
    if cs == [] then [] else cs[0] + Flatten(cs[1..])
  }

  predicate AllGrouped(chunk: seq<Item>) {
    forall i :: 0 <= i < |chunk| ==> Grouped(chunk[i])
  }

  /**
   * The chunks put back together are the items; every chunk is non-empty and is either
   * one comment or a run of grouped items; and no two neighbouring chunks are both runs,
   * so a run is never split.
   */
  lemma ChunksSpec(items: seq<Item>)
    ensures Flatten(Chunks(items)) == items
    ensures forall k :: 0 <= k < |Chunks(items)| ==> Chunks(items)[k] != []
    ensures forall k :: 0 <= k < |Chunks(items)| ==>
              (|Chunks(items)[k]| == 1 && Chunks(items)[k][0].Comment?) || AllGrouped(Chunks(items)[k])
    ensures forall k :: 0 <= k < |Chunks(items)| - 1 ==>
              !(AllGrouped(Chunks(items)[k]) && AllGrouped(Chunks(items)[k + 1]))
  {
    ChunksFlatten(items);
    ChunksNonEmpty(items);
    ChunksShape(items);
    ChunksSeparated(items);
  }

  /** Whether `chunk_while` glues the first item onto the chunk that starts the rest. */
  predicate Merges(items: seq<Item>) {
    |items| >= 2 && Grouped(items[0]) && Grouped(items[1])
  }

  lemma {:induction false} ChunksFlatten(items: seq<Item>)
    ensures Flatten(Chunks(items)) == items
    decreases |items|
  {
    if items != [] {
      var rest := Chunks(items[1..]);
      ChunksFlatten(items[1..]);
      var cs := Chunks(items);
      if Merges(items) {
        assert cs == [[items[0]] + rest[0]] + rest[1..];
        assert Flatten(cs) == [items[0]] + rest[0] + Flatten(rest[1..]);
        assert Flatten(rest) == rest[0] + Flatten(rest[1..]);
      } else {
        assert cs == [[items[0]]] + rest;
      }
      assert items == [items[0]] + items[1..];
    }
  }

  lemma {:induction false} ChunksNonEmpty(items: seq<Item>)
    ensures forall k :: 0 <= k < |Chunks(items)| ==> Chunks(items)[k] != []
    decreases |items|
  {
    if items != [] {
      var rest := Chunks(items[1..]);
      ChunksNonEmpty(items[1..]);
      var cs := Chunks(items);
      if Merges(items) {
        assert cs == [[items[0]] + rest[0]] + rest[1..];
        forall k | 1 <= k < |cs| ensures cs[k] == rest[k] {
        }
      } else {
        assert cs == [[items[0]]] + rest;
        forall k | 1 <= k < |cs| ensures cs[k] == rest[k - 1] {
        }
      }
    }
  }

  lemma {:induction false} ChunksShape(items: seq<Item>)
    ensures forall k :: 0 <= k < |Chunks(items)| ==>
              (|Chunks(items)[k]| == 1 && Chunks(items)[k][0].Comment?) || AllGrouped(Chunks(items)[k])
    decreases |items|
  {
    if items != [] {
      var rest := Chunks(items[1..]);
      ChunksShape(items[1..]);
      var cs := Chunks(items);
      if Merges(items) {
        assert cs == [[items[0]] + rest[0]] + rest[1..];
        assert AllGrouped(rest[0]) by {
          assert rest[0][0] == items[1];
        }
        forall k | 1 <= k < |cs| ensures cs[k] == rest[k] {
        }
      } else {
        assert cs == [[items[0]]] + rest;
        forall k | 1 <= k < |cs| ensures cs[k] == rest[k - 1] {
        }
      }
    }
  }

  lemma {:induction false} ChunksSeparated(items: seq<Item>)
    ensures forall k :: 0 <= k < |Chunks(items)| - 1 ==>
              !(AllGrouped(Chunks(items)[k]) && AllGrouped(Chunks(items)[k + 1]))
    decreases |items|
  {
    if items != [] {
      var rest := Chunks(items[1..]);
      ChunksSeparated(items[1..]);
      var cs := Chunks(items);
      if Merges(items) {
        ChunksShape(items[1..]);
        assert cs == [[items[0]] + rest[0]] + rest[1..];
        assert AllGrouped(rest[0]) by {
          assert rest[0][0] == items[1];
        }
        forall k | 1 <= k < |cs| ensures cs[k] == rest[k] {
        }
      } else {
        assert cs == [[items[0]]] + rest;
        forall k | 1 <= k < |cs| ensures cs[k] == rest[k - 1] {
        }
        if rest != [] {
          assert !(AllGrouped(cs[0]) && AllGrouped(cs[1])) by {
            assert cs[1][0] == items[1];
          }
        }
      }
    }
  }

  /** What one chunk renders: a comment, or a grouped summary of boosts and assignments. */
  datatype ChunkView =
    | CommentView(comment: Item)
    | GroupView(boostCounts: Option<seq<(int, nat)>>, assignees: seq<int>)

  /** `items.select { |item| item.is_a?(Boost) }`: empty exactly when the list holds no boost. */
  function Boosts(items: seq<Item>): (r: seq<Item>)
    ensures forall i :: 0 <= i < |r| ==> r[i].Boost?
    ensures |r| <= |items|
    ensures r == [] <==> forall i :: 0 <= i < |items| ==> !items[i].Boost?
  {
    if items == [] then []
    else
      assert forall i :: 0 < i < |items| ==> items[i] == items[1..][i - 1];
      (if items[0].Boost? then [items[0]] else []) + Boosts(items[1..])
  }

  /** `items.select { |item| item.is_a?(Assignment) }`, keeping only who was assigned. */
  function Assignees(items: seq<Item>): seq<int> {
    if items == [] then []
    else (if items[0].Assignment? then [items[0].assignee] else []) + Assignees(items[1..])
  }

  /** `render_grouped_boosts`, counting only: nil for no boosts, else the per-creator counts. */
  function GroupedBoostCounts(boosts: seq<Item>): (r: Option<seq<(int, nat)>>)
    requires forall i :: 0 <= i < |boosts| ==> boosts[i].Boost?
    ensures r.None? <==> boosts == []
  {
    if boosts == [] then None else Some(Tally(Creators(boosts)))
  }

  /**
   * The rendering decision of `render_remaining_items` for one chunk: a chunk opening
   * with a comment renders as that comment, any other chunk as a group, whose boost
   * counts are nil exactly when the chunk holds no boost.
   */
  function RenderChunk(chunk: seq<Item>): (view: ChunkView)
    requires chunk != []
    ensures view.CommentView? <==> chunk[0].Comment?
    ensures view.CommentView? ==> view.comment == chunk[0]
    ensures view.GroupView? ==> (view.boostCounts.None? <==> forall i :: 0 <= i < |chunk| ==> !chunk[i].Boost?)
  {
    if chunk[0].Comment? then CommentView(chunk[0])
    else GroupView(GroupedBoostCounts(Boosts(chunk)), Assignees(chunk))
  }

  /** The chunks rendered one by one, in order. */
  function RenderAll(cs: seq<seq<Item>>): (views: seq<ChunkView>)
    requires forall k :: 0 <= k < |cs| ==> cs[k] != []
    ensures |views| == |cs|
    ensures forall k :: 0 <= k < |cs| ==> views[k] == RenderChunk(cs[k])
  {
    if cs == [] then []
    else
      var rest := RenderAll(cs[1..]);
      assert forall k :: 0 < k < |cs| ==> cs[k] == cs[1..][k - 1];
      [RenderChunk(cs[0])] + rest
  }

  /**
   * `render_remaining_items`, as the sequence of rendered chunks: nothing at all when the
   * list holds no comment, and otherwise a sequence that opens with a comment.
   */
  function RenderRemaining(items: seq<Item>): (views: seq<ChunkView>)
    ensures views == [] <==> forall i :: 0 <= i < |items| ==> !items[i].Comment?
    ensures views != [] ==> views[0].CommentView?
  {
    var rem := RemainingItems(items);
    ChunksSpec(rem);
    assert rem != [] ==> items[|items| - |rem|] == rem[0];
    RenderAll(Chunks(rem))
  }

  /** How many boosts a list holds. */
  function BoostCount(items: seq<Item>): nat {
    if items == [] then 0 else (if items[0].Boost? then 1 else 0) + BoostCount(items[1..])
  }

  /** In a grouped chunk the per-creator boost counts add up to the number of boosts in it. */
  lemma {:induction false} GroupedBoostCountsTotal(chunk: seq<Item>)
    ensures |Boosts(chunk)| == BoostCount(chunk)
    ensures GroupedBoostCounts(Boosts(chunk)).Some? ==>
              && WellFormed(GroupedBoostCounts(Boosts(chunk)).value)
              && Total(GroupedBoostCounts(Boosts(chunk)).value) == BoostCount(chunk)
    decreases |chunk|
  {
    if chunk != [] {
      GroupedBoostCountsTotal(chunk[1..]);
    }
    TallySpec(Creators(Boosts(chunk)));
  }

  /** The comments of a list, in order. */
  function CommentsOf(items: seq<Item>): seq<Item> {
    if items == [] then [] else (if items[0].Comment? then [items[0]] else []) + CommentsOf(items[1..])
  }

  /** The comments a sequence of rendered chunks shows, in order. */
  function ShownComments(views: seq<ChunkView>): seq<Item> {
    if views == [] then []
    else (if views[0].CommentView? then [views[0].comment] else []) + ShownComments(views[1..])
  }

  lemma {:induction false} CommentsOfConcat(a: seq<Item>, b: seq<Item>)
    ensures CommentsOf(a + b) == CommentsOf(a) + CommentsOf(b)
    decreases |a|
  {
    if a != [] {
      assert (a + b)[1..] == a[1..] + b;
      CommentsOfConcat(a[1..], b);
    } else {
      assert a + b == b;
    }
  }

  lemma {:induction false} NoCommentsInGroup(chunk: seq<Item>)
    requires AllGrouped(chunk)
    ensures CommentsOf(chunk) == []
    decreases |chunk|
  {
    if chunk != [] {
      NoCommentsInGroup(chunk[1..]);
    }
  }

  lemma {:induction false} RenderAllShowsComments(cs: seq<seq<Item>>)
    requires forall k :: 0 <= k < |cs| ==> cs[k] != []
    requires forall k :: 0 <= k < |cs| ==> (|cs[k]| == 1 && cs[k][0].Comment?) || AllGrouped(cs[k])
    ensures ShownComments(RenderAll(cs)) == CommentsOf(Flatten(cs))
    decreases |cs|
  {
    if cs != [] {
      RenderAllShowsComments(cs[1..]);
      CommentsOfConcat(cs[0], Flatten(cs[1..]));
      if cs[0][0].Comment? {
        assert cs[0] == [cs[0][0]];
        assert CommentsOf(cs[0]) == [cs[0][0]];
      } else {
        assert AllGrouped(cs[0]);
        NoCommentsInGroup(cs[0]);
      }
    }
  }

  /**
   * Every comment of the combined list is rendered, once and in order: the dropped
   * prefix holds no comment, and a comment chunk is that one comment.
   */
  lemma AllCommentsRendered(items: seq<Item>)
    ensures ShownComments(RenderRemaining(items)) == CommentsOf(items)
  {
    var rem := RemainingItems(items);
    ChunksSpec(rem);
    RenderAllShowsComments(Chunks(rem));
    DroppedPrefixHasNoComment(items);
  }

  /** The prefix `render_remaining_items` drops holds no comment. */
  lemma DroppedPrefixHasNoComment(items: seq<Item>)
    ensures CommentsOf(RemainingItems(items)) == CommentsOf(items)
  {
    var rem := RemainingItems(items);
    var n := |items| - |rem|;
    assert items == items[..n] + rem;
    CommentsOfConcat(items[..n], rem);
    assert AllGrouped(items[..n]);
    NoCommentsInGroup(items[..n]);
  }

  /**
   * A boost or an assignment before the first comment that is neither in the leading run
   * of boosts nor the first assignment is shown nowhere: deleting it from the list leaves
   * the summary (first assignee, initial boost counts) and the rendered rest unchanged.
   */
  lemma HiddenBeforeFirstComment(items: seq<Item>, i: int)
    requires |LeadingBoosts(items)| <= i < LeadingNonComments(items)
    requires items[i].Boost? || exists j :: 0 <= j < i && items[j].Assignment?
    ensures var without := items[..i] + items[i + 1..];
            && InitialAssignee(without) == InitialAssignee(items)
            && InitialBoostCounts(without) == InitialBoostCounts(items)
            && RenderRemaining(without) == RenderRemaining(items)
  {
    var without := items[..i] + items[i + 1..];
    Deleted(items, i, without);
    SameLeadingBoosts(items, without, i);
    SameRemainingItems(items, without, i);
    SameFirstAssignment(items, without, i);
  }

  /** The list with item `i` deleted, position by position. */
  lemma Deleted(items: seq<Item>, i: int, without: seq<Item>)
    requires 0 <= i < |items| && without == items[..i] + items[i + 1..]
    ensures |without| == |items| - 1
    ensures forall j :: 0 <= j < i ==> without[j] == items[j]
    ensures forall j :: i <= j < |without| ==> without[j] == items[j + 1]
  {
  }

  /** Deleting an item past the leading run of boosts keeps that run. */
  lemma SameLeadingBoosts(items: seq<Item>, without: seq<Item>, i: int)
    requires |LeadingBoosts(items)| <= i < |items| && |without| == |items| - 1
    requires forall j :: 0 <= j < i ==> without[j] == items[j]
    requires forall j :: i <= j < |without| ==> without[j] == items[j + 1]
    requires items[i].Boost? || exists j :: 0 <= j < i && items[j].Assignment?
    ensures LeadingBoosts(without) == LeadingBoosts(items)
  {
    var run := LeadingBoosts(items);
    PastLeadingRun(items, i);
    LeadingBoostsAt(without, |run|);
    assert without[..|run|] == run;
  }

  /** Neither a boost nor a later assignment can sit right where the leading run stops. */
  lemma PastLeadingRun(items: seq<Item>, i: int)
    requires |LeadingBoosts(items)| <= i < |items|
    requires items[i].Boost? || exists j :: 0 <= j < i && items[j].Assignment?
    ensures |LeadingBoosts(items)| < i
  {
    var run := LeadingBoosts(items);
    assert forall j :: 0 <= j < |run| ==> items[j].Boost?;
  }

  /** Deleting an item before the first comment keeps everything from that comment on. */
  lemma SameRemainingItems(items: seq<Item>, without: seq<Item>, i: int)
    requires 0 <= i < LeadingNonComments(items) && |without| == |items| - 1
    requires forall j :: 0 <= j < i ==> without[j] == items[j]
    requires forall j :: i <= j < |without| ==> without[j] == items[j + 1]
    ensures RemainingItems(without) == RemainingItems(items)
  {
    var n := LeadingNonComments(items);
    LeadingNonCommentsAt(without, n - 1);
    assert without[n - 1..] == items[n..];
  }

  /** Deleting a boost, or an assignment after the first one, keeps the first assignment. */
  lemma SameFirstAssignment(items: seq<Item>, without: seq<Item>, i: int)
    requires 0 <= i < |items| && |without| == |items| - 1
    requires forall j :: 0 <= j < i ==> without[j] == items[j]
    requires forall j :: i <= j < |without| ==> without[j] == items[j + 1]
    requires items[i].Boost? || exists j :: 0 <= j < i && items[j].Assignment?
    ensures FirstAssignment(without) == FirstAssignment(items)
  {
    if FirstAssignment(items).None? {
      assert forall j :: 0 <= j < |without| ==> !without[j].Assignment?;
    } else {
      var a := FirstAssignment(items).value;
      var k :| 0 <= k < |items| && items[k] == a && a.Assignment? && forall j :: 0 <= j < k ==> !items[j].Assignment?;
      assert k != i;
      if k < i {
        FirstAssignmentAt(without, k);
      } else {
        FirstAssignmentAt(without, k - 1);
      }
    }
  }

  /** The leading run of boosts is the prefix of boosts that a non-boost (or the end) closes. */
  lemma LeadingBoostsAt(s: seq<Item>, k: int)
    requires 0 <= k <= |s|
    requires forall j :: 0 <= j < k ==> s[j].Boost?
    requires k == |s| || !s[k].Boost?
    ensures LeadingBoosts(s) == s[..k]
  {
  }

  /** The leading non-comments are the prefix that a comment (or the end) closes. */
  lemma LeadingNonCommentsAt(s: seq<Item>, k: int)
    requires 0 <= k <= |s|
    requires forall j :: 0 <= j < k ==> !s[j].Comment?
    requires k == |s| || s[k].Comment?
    ensures LeadingNonComments(s) == k
  {
  }

  /** An assignment with no assignment before it is the first assignment. */
  lemma FirstAssignmentAt(s: seq<Item>, k: int)
    requires 0 <= k < |s| && s[k].Assignment?
    requires forall j :: 0 <= j < k ==> !s[j].Assignment?
    ensures FirstAssignment(s) == Some(s[k])
  {
    var a := FirstAssignment(s).value;
    var idx :| 0 <= idx < |s| && s[idx] == a && a.Assignment? && forall j :: 0 <= j < idx ==> !s[j].Assignment?;
    assert idx == k;
  }

  /** The assignees a sequence of rendered chunks names, in order. */
  function ShownAssignees(views: seq<ChunkView>): seq<int> {
    if views == [] then []
    else (if views[0].GroupView? then views[0].assignees else []) + ShownAssignees(views[1..])
  }

  lemma {:induction false} AssigneesConcat(a: seq<Item>, b: seq<Item>)
    ensures Assignees(a + b) == Assignees(a) + Assignees(b)
    decreases |a|
  {
    if a != [] {
      assert (a + b)[1..] == a[1..] + b;
      AssigneesConcat(a[1..], b);
    } else {
      assert a + b == b;
    }
  }

  lemma {:induction false} RenderAllShowsAssignees(cs: seq<seq<Item>>)
    requires forall k :: 0 <= k < |cs| ==> cs[k] != []
    requires forall k :: 0 <= k < |cs| ==> (|cs[k]| == 1 && cs[k][0].Comment?) || AllGrouped(cs[k])
    ensures ShownAssignees(RenderAll(cs)) == Assignees(Flatten(cs))
    decreases |cs|
  {
    if cs != [] {
      RenderAllShowsAssignees(cs[1..]);
      AssigneesConcat(cs[0], Flatten(cs[1..]));
      assert RenderAll(cs)[1..] == RenderAll(cs[1..]);
      if cs[0][0].Comment? {
        assert cs[0] == [cs[0][0]];
        assert Assignees(cs[0]) == [];
      }
    }
  }

  /** Every assignment from the first comment on is rendered, in its group, in order. */
  lemma LaterAssignmentsRendered(items: seq<Item>)
    ensures ShownAssignees(RenderRemaining(items)) == Assignees(RemainingItems(items))
  {
    var rem := RemainingItems(items);
    ChunksSpec(rem);
    RenderAllShowsAssignees(Chunks(rem));
  }

  lemma {:induction false} AssigneeListed(s: seq<Item>, m: int)
    requires 0 <= m < |s| && s[m].Assignment?
    ensures s[m].assignee in Assignees(s)
    decreases |s|
  {
    if m > 0 {
      assert s[1..][m - 1] == s[m];
      AssigneeListed(s[1..], m - 1);
    }
  }

  /**
   * When the first assignment comes after the first comment, its assignee is named twice:
   * in the summary line, and again in the group that renders that assignment.
   */
  lemma FirstAssignmentShownTwice(items: seq<Item>, k: int)
    requires 0 <= k < |items| && items[k].Assignment?
    requires forall j :: 0 <= j < k ==> !items[j].Assignment?
    requires exists j :: 0 <= j < k && items[j].Comment?
    ensures InitialAssignee(items) == Some(items[k].assignee)
    ensures items[k].assignee in ShownAssignees(RenderRemaining(items))
  {
    FirstAssignmentAt(items, k);
    var rem := RemainingItems(items);
    var n := |items| - |rem|;
    assert n <= k;
    assert rem[k - n] == items[k];
    AssigneeListed(rem, k - n);
    LaterAssignmentsRendered(items);
  }
}
