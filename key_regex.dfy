/** The row-key regular expression of `StorageQueryHbase.createAndSetFilter`:
    skip the metric id and base time, then find every wanted tag and every
    group-by tag name among the key's tag pairs, in ascending name-id order,
    each as a `\Q…\E` literal, with group-by values either free or drawn
    from an allow-list. */
module KeyRegex {
  import opened Wrappers
  import opened Bytes
  import opened RowKey
  import opened RegexQuote

  /** A UID: a metric, tag-name or tag-value id, or a tag (name id followed
      by value id). */
  type Id = seq<byte>

  /** Every id has at least a name id's worth of bytes. */
  predicate AllWide(ids: seq<Id>, nw: nat) {
    forall x :: x in ids ==> nw <= |x|
  }

  /** The name-id part of a tag, or a group-by name id itself (an id too
      short to hold one, which the walk never meets, is kept whole). */
  function Name(x: Id, nw: nat): Id {
    if |x| < nw then x else x[..nw]
  }

  /** `Iterator.hasNext() ? next() : null`. */
  function Head(s: seq<Id>): (h: Option<Id>)
    ensures h.Some? <==> s != []
    ensures h.Some? ==> h.value == s[0]
  {
    if s == [] then None else Some(s[0])
  }

  datatype Item = TagItem(tag: Id) | GroupByItem(name: Id)

  function ItemId(item: Item): Id {
    match item
    case TagItem(t) => t
    case GroupByItem(g) => g
  }

  datatype FilterError =
    | /** `AssertionError`: a tag and a group-by share a name id. */
      TagAlsoGroupBy(name: Id)
    | /** `NullPointerException` from `addId(buf, null)`: neither a tag nor
          a group-by to write. */
      NoTagOrGroupBy
    | /** `NegativeArraySizeException` from `new StringBuilder(capacity)`:
          the `int` capacity estimate came out negative. */
      NegativeCapacity

  // ---------------------------------------------------------------------
  // The merge walk (isTagNext and the do-while).
  // ---------------------------------------------------------------------

  lemma MemCmpPrefix(a: seq<byte>, b: seq<byte>, n: nat, off: nat, len: nat)
    requires off + len <= n <= |a| && n <= |b|
    ensures MemCmp(a[..n], b[..n], off, len) == MemCmp(a, b, off, len)
    decreases len
  {
    if len > 0 && a[off] != b[off] {
      assert a[..n][off] == a[off] && b[..n][off] == b[off];
    } else if len > 0 {
      MemCmpPrefix(a, b, n, off + 1, len - 1);
    }
  }

  /** `memcmp(tag, group_by, 0, name_width)` is the order of the name ids. */
  lemma NameOrder(a: Id, b: Id, nw: nat)
    requires nw <= |a| && nw <= |b|
    ensures MemCmp(a, b, 0, nw) == Lex(Name(a, nw), Name(b, nw))
  {
    MemCmpPrefix(a, b, nw, 0, nw);
    LexSameLength(Name(a, nw), Name(b, nw));
  }

  /** `isTagNext`. */
  function IsTagNext(nw: nat, tag: Option<Id>, groupBy: Option<Id>): Result<bool, FilterError>
    requires tag.Some? ==> nw <= |tag.value|
    requires groupBy.Some? ==> nw <= |groupBy.value|
  {
    if tag.None? then Ok(false)
    else if groupBy.None? then Ok(true)
    else
      var cmp := MemCmp(tag.value, groupBy.value, 0, nw);
      if cmp == 0 then Err(TagAlsoGroupBy(groupBy.value)) else Ok(cmp < 0)
  }

  /** The tag goes next exactly when there is no group-by left or its name
      id sorts strictly first; a tag and a group-by with one name id are an
      invariant violation. */
  lemma IsTagNextOrder(nw: nat, tag: Option<Id>, groupBy: Option<Id>)
    requires tag.Some? ==> nw <= |tag.value|
    requires groupBy.Some? ==> nw <= |groupBy.value|
    ensures IsTagNext(nw, tag, groupBy).Err? <==>
      tag.Some? && groupBy.Some? && Name(tag.value, nw) == Name(groupBy.value, nw)
    ensures IsTagNext(nw, tag, groupBy).Err? ==>
      IsTagNext(nw, tag, groupBy).error == TagAlsoGroupBy(groupBy.value)
    ensures IsTagNext(nw, tag, groupBy) == Ok(true) <==>
      tag.Some? && (groupBy.None? || Lex(Name(tag.value, nw), Name(groupBy.value, nw)) < 0)
  {
    if tag.Some? && groupBy.Some? {
      NameOrder(tag.value, groupBy.value, nw);
      LexIsNumericOrder(Name(tag.value, nw), Name(groupBy.value, nw));
    }
  }

  function Cons(item: Item, r: Result<seq<Item>, FilterError>): Result<seq<Item>, FilterError> {
    match r
    case Ok(items) => Ok([item] + items)
    case Err(e) => Err(e)
  }

  /** The outcome of the whole walk once `done` has been written. */
  function Then(done: seq<Item>, r: Result<seq<Item>, FilterError>): Result<seq<Item>, FilterError> {
    match r
    case Ok(items) => Ok(done + items)
    case Err(e) => Err(e)
  }

  lemma ThenCons(done: seq<Item>, item: Item, r: Result<seq<Item>, FilterError>)
    ensures Then(done, Cons(item, r)) == Then(done + [item], r)
  {
    if r.Ok? {
      assert done + ([item] + r.value) == done + [item] + r.value;
    }
  }

  /** The order the do-while writes tags and group-bys in: at each step the
      item `isTagNext` picks, until both lists are used up. */
  function Merge(tags: seq<Id>, groupBys: seq<Id>, nw: nat): Result<seq<Item>, FilterError>
    requires AllWide(tags, nw) && AllWide(groupBys, nw)
    decreases |tags| + |groupBys|
  {
    if tags == [] && groupBys == [] then Ok([])
    else match IsTagNext(nw, Head(tags), Head(groupBys))
      case Err(e) => Err(e)
      case Ok(tagNext) =>
        if tagNext then Cons(TagItem(tags[0]), Merge(tags[1..], groupBys, nw))
        else Cons(GroupByItem(groupBys[0]), Merge(tags, groupBys[1..], nw))
  }

  function TagsOf(items: seq<Item>): seq<Id> {
    if items == [] then []
    else (if items[0].TagItem? then [items[0].tag] else []) + TagsOf(items[1..])
  }

  function GroupBysOf(items: seq<Item>): seq<Id> {
    if items == [] then []
    else (if items[0].GroupByItem? then [items[0].name] else []) + GroupBysOf(items[1..])
  }

  /** The walk writes every tag and every group-by, each list in its own
      order, and nothing else. */
  lemma {:induction false} MergeInterleaves(tags: seq<Id>, groupBys: seq<Id>, nw: nat)
    requires AllWide(tags, nw) && AllWide(groupBys, nw)
    ensures Merge(tags, groupBys, nw).Ok? ==>
      && TagsOf(Merge(tags, groupBys, nw).value) == tags
      && GroupBysOf(Merge(tags, groupBys, nw).value) == groupBys
    decreases |tags| + |groupBys|
  {
    if !(tags == [] && groupBys == []) {
      var next := IsTagNext(nw, Head(tags), Head(groupBys));
      IsTagNextOrder(nw, Head(tags), Head(groupBys));
      if next == Ok(true) {
        MergeInterleaves(tags[1..], groupBys, nw);
        assert tags == [tags[0]] + tags[1..];
      } else if next == Ok(false) {
        MergeInterleaves(tags, groupBys[1..], nw);
        assert groupBys == [groupBys[0]] + groupBys[1..];
      }
    }
  }

  /** Ids sorted by name id, as `tags` and the sorted `group_bys` are. */
  predicate NamesSorted(ids: seq<Id>, nw: nat)
  {
    forall i, j :: 0 <= i < j < |ids| ==> Lex(Name(ids[i], nw), Name(ids[j], nw)) <= 0
  }

  predicate AllAtLeast(ids: seq<Id>, low: Id, nw: nat)
  {
    forall x :: x in ids ==> Lex(low, Name(x, nw)) <= 0
  }

  function ItemIds(items: seq<Item>): (ids: seq<Id>)
    ensures |ids| == |items|
    ensures forall i :: 0 <= i < |items| ==> ids[i] == ItemId(items[i])
  {
    if items == [] then [] else [ItemId(items[0])] + ItemIds(items[1..])
  }

  /** Everything the walk writes comes from its inputs, so a lower bound of
      the inputs bounds it. */
  lemma {:induction false} MergeAtLeast(tags: seq<Id>, groupBys: seq<Id>, nw: nat, low: Id)
    requires AllWide(tags, nw) && AllWide(groupBys, nw)
    requires AllAtLeast(tags, low, nw) && AllAtLeast(groupBys, low, nw)
    ensures Merge(tags, groupBys, nw).Ok? ==>
      AllWide(ItemIds(Merge(tags, groupBys, nw).value), nw) &&
      AllAtLeast(ItemIds(Merge(tags, groupBys, nw).value), low, nw)
    decreases |tags| + |groupBys|
  {
    if !(tags == [] && groupBys == []) {
      var next := IsTagNext(nw, Head(tags), Head(groupBys));
      IsTagNextOrder(nw, Head(tags), Head(groupBys));
      if next == Ok(true) {
        assert tags[0] in tags;
        assert forall x :: x in tags[1..] ==> x in tags;
        MergeAtLeast(tags[1..], groupBys, nw, low);
      } else if next == Ok(false) {
        assert groupBys[0] in groupBys;
        assert forall x :: x in groupBys[1..] ==> x in groupBys;
        MergeAtLeast(tags, groupBys[1..], nw, low);
      }
    }
  }

  /** When the first tag goes first, its name id bounds everything left. */
  lemma TagFirstBound(tags: seq<Id>, groupBys: seq<Id>, nw: nat)
    requires AllWide(tags, nw) && AllWide(groupBys, nw)
    requires NamesSorted(tags, nw) && NamesSorted(groupBys, nw)
    requires IsTagNext(nw, Head(tags), Head(groupBys)) == Ok(true)
    ensures tags != [] && AllWide(tags[1..], nw)
    ensures AllAtLeast(tags[1..], Name(tags[0], nw), nw)
    ensures AllAtLeast(groupBys, Name(tags[0], nw), nw)
  {
    IsTagNextOrder(nw, Head(tags), Head(groupBys));
    var low := Name(tags[0], nw);
    forall x | x in tags[1..] ensures nw <= |x| && Lex(low, Name(x, nw)) <= 0 {
      var k :| 1 <= k < |tags| && tags[k] == x;
    }
    forall x | x in groupBys ensures Lex(low, Name(x, nw)) <= 0 {
      var k :| 0 <= k < |groupBys| && groupBys[k] == x;
      if k > 0 {
        LexTransitive(low, Name(groupBys[0], nw), Name(x, nw));
      }
    }
  }

  /** When the first group-by goes first, its name id bounds everything
      left. */
  lemma GroupByFirstBound(tags: seq<Id>, groupBys: seq<Id>, nw: nat)
    requires AllWide(tags, nw) && AllWide(groupBys, nw)
    requires NamesSorted(tags, nw) && NamesSorted(groupBys, nw)
    requires tags != [] || groupBys != []
    requires IsTagNext(nw, Head(tags), Head(groupBys)) == Ok(false)
    ensures groupBys != [] && AllWide(groupBys[1..], nw)
    ensures AllAtLeast(tags, Name(groupBys[0], nw), nw)
    ensures AllAtLeast(groupBys[1..], Name(groupBys[0], nw), nw)
    ensures tags != [] ==> Lex(Name(groupBys[0], nw), Name(tags[0], nw)) < 0
  {
    IsTagNextOrder(nw, Head(tags), Head(groupBys));
    var low := Name(groupBys[0], nw);
    if tags != [] {
      LexAntisymmetricSign(Name(tags[0], nw), low);
      LexIsNumericOrder(Name(tags[0], nw), low);
    }
    forall x | x in tags ensures Lex(low, Name(x, nw)) <= 0 {
      var k :| 0 <= k < |tags| && tags[k] == x;
      if k > 0 {
        LexTransitive(low, Name(tags[0], nw), Name(x, nw));
      }
    }
    forall x | x in groupBys[1..] ensures nw <= |x| && Lex(low, Name(x, nw)) <= 0 {
      var k :| 1 <= k < |groupBys| && groupBys[k] == x;
    }
  }

  lemma SortedTail(ids: seq<Id>, nw: nat)
    requires ids != [] && AllWide(ids, nw) && NamesSorted(ids, nw)
    ensures AllWide(ids[1..], nw) && NamesSorted(ids[1..], nw)
  {
    assert forall x :: x in ids[1..] ==> x in ids;
  }

  /** With both lists sorted by name id, the walk writes name ids in
      ascending order. */
  lemma {:induction false} MergeAscending(tags: seq<Id>, groupBys: seq<Id>, nw: nat)
    requires AllWide(tags, nw) && AllWide(groupBys, nw)
    requires NamesSorted(tags, nw) && NamesSorted(groupBys, nw)
    ensures Merge(tags, groupBys, nw).Ok? ==>
      AllWide(ItemIds(Merge(tags, groupBys, nw).value), nw) &&
      NamesSorted(ItemIds(Merge(tags, groupBys, nw).value), nw)
    decreases |tags| + |groupBys|
  {
    if !(tags == [] && groupBys == []) {
      var next := IsTagNext(nw, Head(tags), Head(groupBys));
      IsTagNextOrder(nw, Head(tags), Head(groupBys));
      if next == Ok(true) {
        TagFirstBound(tags, groupBys, nw);
        SortedTail(tags, nw);
        var rest := Merge(tags[1..], groupBys, nw);
        MergeAtLeast(tags[1..], groupBys, nw, Name(tags[0], nw));
        MergeAscending(tags[1..], groupBys, nw);
        if rest.Ok? {
          SortedCons(tags[0], ItemIds(rest.value), nw);
          assert ItemIds([TagItem(tags[0])] + rest.value) == [tags[0]] + ItemIds(rest.value);
        }
      } else if next == Ok(false) {
        GroupByFirstBound(tags, groupBys, nw);
        SortedTail(groupBys, nw);
        var rest := Merge(tags, groupBys[1..], nw);
        MergeAtLeast(tags, groupBys[1..], nw, Name(groupBys[0], nw));
        MergeAscending(tags, groupBys[1..], nw);
        if rest.Ok? {
          SortedCons(groupBys[0], ItemIds(rest.value), nw);
          assert ItemIds([GroupByItem(groupBys[0])] + rest.value) == [groupBys[0]] + ItemIds(rest.value);
        }
      }
    }
  }

  lemma SortedCons(x: Id, rest: seq<Id>, nw: nat)
    requires nw <= |x| && AllWide(rest, nw)
    requires NamesSorted(rest, nw) && AllAtLeast(rest, Name(x, nw), nw)
    ensures AllWide([x] + rest, nw) && NamesSorted([x] + rest, nw)
  {
    var ids := [x] + rest;
    assert forall y :: y in ids ==> y == x || y in rest;
    forall i, j | 0 <= i < j < |ids| ensures Lex(Name(ids[i], nw), Name(ids[j], nw)) <= 0 {
      assert ids[j] == rest[j - 1];
      if i == 0 {
        assert rest[j - 1] in rest;
      } else {
        assert ids[i] == rest[i - 1];
      }
    }
  }

  /** Some tag and some group-by share a name id. */
  predicate SharedName(tags: seq<Id>, groupBys: seq<Id>, nw: nat)
  {
    exists i, j :: 0 <= i < |tags| && 0 <= j < |groupBys| && Name(tags[i], nw) == Name(groupBys[j], nw)
  }

  /** A name id below the first of sorted group-bys is none of theirs. */
  lemma BelowSortedIsAbsent(low: Id, ids: seq<Id>, nw: nat)
    requires AllWide(ids, nw) && NamesSorted(ids, nw)
    requires ids != [] ==> Lex(low, Name(ids[0], nw)) < 0
    ensures forall j | 0 <= j < |ids| :: low != Name(ids[j], nw)
  {
    forall j | 0 <= j < |ids| ensures low != Name(ids[j], nw) {
      if j > 0 {
        LexTransitive(low, Name(ids[0], nw), Name(ids[j], nw));
      }
      LexAntisymmetricSign(low, Name(ids[j], nw));
    }
  }

  /** Writing a tag that sorts before every group-by loses no shared name. */
  lemma SharedAfterTag(tags: seq<Id>, groupBys: seq<Id>, nw: nat)
    requires tags != [] && AllWide(tags, nw) && AllWide(groupBys, nw) && AllWide(tags[1..], nw)
    requires groupBys != [] ==> Lex(Name(tags[0], nw), Name(groupBys[0], nw)) < 0
    requires NamesSorted(groupBys, nw)
    ensures SharedName(tags, groupBys, nw) <==> SharedName(tags[1..], groupBys, nw)
  {
    BelowSortedIsAbsent(Name(tags[0], nw), groupBys, nw);
    if SharedName(tags, groupBys, nw) {
      var i, j :| 0 <= i < |tags| && 0 <= j < |groupBys| && Name(tags[i], nw) == Name(groupBys[j], nw);
      assert i != 0;
      assert Name(tags[1..][i - 1], nw) == Name(groupBys[j], nw);
    }
    if SharedName(tags[1..], groupBys, nw) {
      var i, j :| 0 <= i < |tags[1..]| && 0 <= j < |groupBys| && Name(tags[1..][i], nw) == Name(groupBys[j], nw);
      assert Name(tags[i + 1], nw) == Name(groupBys[j], nw);
    }
  }

  /** Writing a group-by that sorts before every tag loses no shared name. */
  lemma SharedAfterGroupBy(tags: seq<Id>, groupBys: seq<Id>, nw: nat)
    requires groupBys != [] && AllWide(tags, nw) && AllWide(groupBys, nw) && AllWide(groupBys[1..], nw)
    requires tags != [] ==> Lex(Name(groupBys[0], nw), Name(tags[0], nw)) < 0
    requires NamesSorted(tags, nw)
    ensures SharedName(tags, groupBys, nw) <==> SharedName(tags, groupBys[1..], nw)
  {
    BelowSortedIsAbsent(Name(groupBys[0], nw), tags, nw);
    if SharedName(tags, groupBys, nw) {
      var i, j :| 0 <= i < |tags| && 0 <= j < |groupBys| && Name(tags[i], nw) == Name(groupBys[j], nw);
      assert j != 0;
      assert Name(tags[i], nw) == Name(groupBys[1..][j - 1], nw);
    }
    if SharedName(tags, groupBys[1..], nw) {
      var i, j :| 0 <= i < |tags| && 0 <= j < |groupBys[1..]| && Name(tags[i], nw) == Name(groupBys[1..][j], nw);
      assert Name(tags[i], nw) == Name(groupBys[j + 1], nw);
    }
  }

  /** On sorted lists the walk fails exactly when a tag and a group-by
      share a name id. */
  lemma {:induction false} MergeFailsIffShared(tags: seq<Id>, groupBys: seq<Id>, nw: nat)
    requires AllWide(tags, nw) && AllWide(groupBys, nw)
    requires NamesSorted(tags, nw) && NamesSorted(groupBys, nw)
    ensures Merge(tags, groupBys, nw).Err? <==> SharedName(tags, groupBys, nw)
    decreases |tags| + |groupBys|
  {
    if !(tags == [] && groupBys == []) {
      var next := IsTagNext(nw, Head(tags), Head(groupBys));
      IsTagNextOrder(nw, Head(tags), Head(groupBys));
      if next.Err? {
        assert Name(tags[0], nw) == Name(groupBys[0], nw);
      } else if next == Ok(true) {
        TagFirstBound(tags, groupBys, nw);
        SortedTail(tags, nw);
        MergeFailsIffShared(tags[1..], groupBys, nw);
        SharedAfterTag(tags, groupBys, nw);
      } else {
        GroupByFirstBound(tags, groupBys, nw);
        SortedTail(groupBys, nw);
        MergeFailsIffShared(tags, groupBys[1..], nw);
        SharedAfterGroupBy(tags, groupBys, nw);
      }
    }
  }

  // ---------------------------------------------------------------------
  // Sorting the group-bys (Collections.sort with Bytes.MEMCMP).
  // ---------------------------------------------------------------------

  predicate LexSorted(ids: seq<Id>) {
    forall i, j :: 0 <= i < j < |ids| ==> Lex(ids[i], ids[j]) <= 0
  }

  function Insert(ids: seq<Id>, x: Id): (r: seq<Id>)
    ensures multiset(r) == multiset(ids) + multiset{x}
  {
    if ids == [] then [x]
    else if Lex(x, ids[0]) <= 0 then [x] + ids
    else
      assert ids == [ids[0]] + ids[1..];
      [ids[0]] + Insert(ids[1..], x)
  }

  lemma {:induction false} InsertSorted(ids: seq<Id>, x: Id)
    requires LexSorted(ids)
    ensures LexSorted(Insert(ids, x))
  {
    if ids != [] {
      if Lex(x, ids[0]) <= 0 {
        var r := [x] + ids;
        forall i, j | 0 <= i < j < |r| ensures Lex(r[i], r[j]) <= 0 {
          if i == 0 && j > 1 {
            LexTransitive(x, ids[0], ids[j - 1]);
          }
        }
      } else {
        InsertSorted(ids[1..], x);
        var rest := Insert(ids[1..], x);
        var r := [ids[0]] + rest;
        LexAntisymmetricSign(x, ids[0]);
        forall i, j | 0 <= i < j < |r| ensures Lex(r[i], r[j]) <= 0 {
          if i == 0 {
            assert r[j] in multiset(rest);
            assert r[j] in multiset(ids[1..]) || r[j] == x;
            if r[j] != x {
              var k :| 0 <= k < |ids[1..]| && ids[1..][k] == r[j];
              assert ids[k + 1] == r[j];
            }
          }
        }
      }
    }
  }

  /** `Collections.sort(group_bys, Bytes.MEMCMP)`. */
  function SortIds(ids: seq<Id>): (r: seq<Id>)
    ensures multiset(r) == multiset(ids)
  {
    if ids == [] then []
    else
      assert ids == ids[..|ids| - 1] + [ids[|ids| - 1]];
      Insert(SortIds(ids[..|ids| - 1]), ids[|ids| - 1])
  }

  /** The sort leaves the group-bys a sorted permutation of themselves. */
  lemma {:induction false} SortIdsSorted(ids: seq<Id>)
    ensures LexSorted(SortIds(ids)) && multiset(SortIds(ids)) == multiset(ids)
  {
    if ids != [] {
      SortIdsSorted(ids[..|ids| - 1]);
      InsertSorted(SortIds(ids[..|ids| - 1]), ids[|ids| - 1]);
    }
  }

  lemma SortKeepsMembers(ids: seq<Id>)
    ensures forall x :: x in SortIds(ids) ==> x in ids
  {
    forall x | x in SortIds(ids) ensures x in ids {
      assert x in multiset(SortIds(ids));
    }
  }

  lemma SortKeepsWidth(ids: seq<Id>, nw: nat)
    requires AllWide(ids, nw)
    ensures AllWide(SortIds(ids), nw)
  {
    SortKeepsMembers(ids);
  }

  /** Group-by name ids, sorted by the byte order, are sorted by name. */
  lemma SortedGroupBysByName(ids: seq<Id>, nw: nat)
    requires forall x :: x in ids ==> |x| == nw
    ensures AllWide(SortIds(ids), nw) && NamesSorted(SortIds(ids), nw)
  {
    SortKeepsMembers(ids);
    SortIdsSorted(ids);
    var s := SortIds(ids);
    forall i, j | 0 <= i < j < |s| ensures Lex(Name(s[i], nw), Name(s[j], nw)) <= 0 {
      assert s[i] in ids && s[j] in ids;
      assert s[i][..nw] == s[i] && s[j][..nw] == s[j];
    }
  }

  // ---------------------------------------------------------------------
  // The text of the expression.
  // ---------------------------------------------------------------------

  /** `(?s)^.{N}`: dot matches any byte, and the metric id and base time
      are skipped. */
  function Header(mw: nat): string {
    "(?s)^.{" + Decimal(mw + TimestampBytes) + "}"
  }

  /** `(?:.{M})*`: any number of whole tag pairs. */
  function SkipTags(tagsize: int): string {
    "(?:.{" + IntText(tagsize) + "})*"
  }

  function Trailer(tagsize: int): string {
    SkipTags(tagsize) + "$"
  }

  /** `(short) (name_width + value_width)`. */
  function TagSize(nw: nat, vw: nat): int {
    Wrap16(nw + vw)
  }

  /** The initial capacity `createAndSetFilter` asks of its
      `StringBuilder`, in `int` arithmetic: `15 + (13 + tagsize) * (tags +
      3 * group_bys)`, with no group-bys when the list is `null`. */
  function Capacity(nw: nat, vw: nat, nTags: nat, nGroupBys: nat): Int32 {
    Wrap32(15 + (13 + TagSize(nw, vw)) * (nTags + 3 * nGroupBys))
  }

  /** With nothing to write the estimate is the fixed 15. */
  lemma CapacityOfNothing(nw: nat, vw: nat)
    ensures Capacity(nw, vw, 0, 0) == 15
  {
    assert (13 + TagSize(nw, vw)) * (0 + 3 * 0) == 0;
  }

  /** With widths whose sum fits a `short` and a product that fits an
      `int`, the capacity is the plain count and is not negative. */
  lemma CapacityWithinShort(nw: nat, vw: nat, nTags: nat, nGroupBys: nat)
    requires nw + vw < 0x8000
    requires 15 + (13 + nw + vw) * (nTags + 3 * nGroupBys) < 0x8000_0000
    ensures Capacity(nw, vw, nTags, nGroupBys) == 15 + (13 + nw + vw) * (nTags + 3 * nGroupBys)
    ensures Capacity(nw, vw, nTags, nGroupBys) >= 0
  {
    assert TagSize(nw, vw) == nw + vw;
    assert (13 + nw + vw) * (nTags + 3 * nGroupBys) >= 0;
  }

  /** Name and value widths of 20000 bytes each wrap the `short` tag size
      to -25536, and one tag then makes the capacity negative. */
  lemma WideTagSizeNegativeCapacity()
    ensures TagSize(20000, 20000) == -25536
    ensures Capacity(20000, 20000, 1, 0) == 15 + 13 - 25536
    ensures Capacity(20000, 20000, 1, 0) < 0
  {
    assert TagSize(20000, 20000) == -25536;
  }

  /** An id as a quoted literal, as `addId` as written quotes it. */
  function Literal(id: Id): string {
    "\\Q" + QuoteIdAsWritten(id)
  }

  /** The literal of an id without a backslash byte matches exactly the id's
      bytes; with one, `addId` as written may not (see `RegexQuote`). */
  lemma LiteralDenotes(id: Id)
    requires forall i :: 0 <= i < |id| ==> id[i] != Backslash
    ensures OutQuote(Literal(id)) == Some(Chars(id))
  {
    QuoteAsWrittenAgreesWithoutBackslash(id);
    QuotedIdRoundTrip(id);
  }

  /** Each allowed value as a literal followed by `|`. */
  function Alternatives(values: seq<Id>): string {
    if values == [] then ""
    else Alternatives(values[..|values| - 1]) + Literal(values[|values| - 1]) + "|"
  }

  /** `buf.setCharAt(buf.length() - 1, c)`. */
  function ReplaceLast(s: string, c: char): string
    requires s != []
  {
    s[..|s| - 1] + [c]
  }

  /** `(?:` then the alternatives, the last `|` turned into `)`. */
  function AllowList(values: seq<Id>): string {
    ReplaceLast("(?:" + Alternatives(values), ')')
  }

  /** The values joined by `|`. */
  function Join(values: seq<Id>): string
    requires values != []
  {
    if |values| == 1 then Literal(values[0])
    else Join(values[..|values| - 1]) + "|" + Literal(values[|values| - 1])
  }

  lemma {:induction false} AlternativesJoin(values: seq<Id>)
    requires values != []
    ensures Alternatives(values) == Join(values) + "|"
    decreases |values|
  {
    if |values| > 1 {
      AlternativesJoin(values[..|values| - 1]);
    } else {
      assert values[..0] == [];
    }
  }

  /** A non-empty allow-list is a group of the quoted values separated by
      `|`; an empty one leaves `(?)`. */
  lemma AllowListShape(values: seq<Id>)
    ensures values != [] ==> AllowList(values) == "(?:" + Join(values) + ")"
    ensures values == [] ==> AllowList(values) == "(?)"
  {
    if values != [] {
      AlternativesJoin(values);
      var s := "(?:" + Join(values) + "|";
      assert s[..|s| - 1] == "(?:" + Join(values);
    }
  }

  /** What follows a group-by's name id: any value id, or the allowed ones. */
  function ValuesText(name: Id, vw: nat, groupByValues: Option<map<Id, seq<Id>>>): string {
    if groupByValues.None? || name !in groupByValues.value then ".{" + Decimal(vw) + "}"
    else AllowList(groupByValues.value[name])
  }

  function Segment(item: Item, tagsize: int, vw: nat, groupByValues: Option<map<Id, seq<Id>>>): string {
    SkipTags(tagsize) + Literal(ItemId(item))
      + (if item.TagItem? then "" else ValuesText(item.name, vw, groupByValues))
  }

  function Segments(items: seq<Item>, tagsize: int, vw: nat, groupByValues: Option<map<Id, seq<Id>>>): string {
    if items == [] then ""
    else
      Segments(items[..|items| - 1], tagsize, vw, groupByValues)
        + Segment(items[|items| - 1], tagsize, vw, groupByValues)
  }

  /** The group-bys as the sort leaves them; none when there are none. */
  function SortedGroupBys(groupBys: Option<seq<Id>>): seq<Id> {
    if groupBys.None? then [] else SortIds(groupBys.value)
  }

  lemma SortedGroupBysWide(groupBys: Option<seq<Id>>, nw: nat)
    requires groupBys.Some? ==> AllWide(groupBys.value, nw)
    ensures AllWide(SortedGroupBys(groupBys), nw)
  {
    if groupBys.Some? {
      SortKeepsWidth(groupBys.value, nw);
    }
  }

  predicate WideIds(tags: seq<Id>, groupBys: Option<seq<Id>>, nw: nat) {
    AllWide(tags, nw) && (groupBys.Some? ==> AllWide(groupBys.value, nw))
  }

  /** The expression written for tags and already sorted group-bys, or the
      exception the writing throws. */
  function BuildRegex(mw: nat, nw: nat, vw: nat, tags: seq<Id>, groupBys: seq<Id>,
                      groupByValues: Option<map<Id, seq<Id>>>): (r: Result<string, FilterError>)
    requires AllWide(tags, nw) && AllWide(groupBys, nw)
    ensures r == Err(NegativeCapacity) <==> Capacity(nw, vw, |tags|, |groupBys|) < 0
    ensures r == Err(NoTagOrGroupBy) <==> tags == [] && groupBys == []
    ensures r.Ok? ==> Header(mw) <= r.value
  {
    CapacityOfNothing(nw, vw);
    if Capacity(nw, vw, |tags|, |groupBys|) < 0 then Err(NegativeCapacity)
    else if tags == [] && groupBys == [] then Err(NoTagOrGroupBy)
    else
      MergeNeverEmpty(tags, groupBys, nw);
      match Merge(tags, groupBys, nw)
      case Err(e) => Err(e)
      case Ok(items) =>
        var tagsize := TagSize(nw, vw);
        var s := Header(mw) + Segments(items, tagsize, vw, groupByValues) + Trailer(tagsize);
        assert s == Header(mw) + (Segments(items, tagsize, vw, groupByValues) + Trailer(tagsize));
        Ok(s)
  }

  /** The expression `createAndSetFilter` sets on the scanner, or the
      exception it throws: the group-bys are sorted first. */
  function KeyRegex(mw: nat, nw: nat, vw: nat, tags: seq<Id>, groupBys: Option<seq<Id>>,
                    groupByValues: Option<map<Id, seq<Id>>>): Result<string, FilterError>
    requires WideIds(tags, groupBys, nw)
  {
    SortedGroupBysWide(groupBys, nw);
    BuildRegex(mw, nw, vw, tags, SortedGroupBys(groupBys), groupByValues)
  }

  lemma MergeNeverEmpty(tags: seq<Id>, groupBys: seq<Id>, nw: nat)
    requires AllWide(tags, nw) && AllWide(groupBys, nw)
    ensures Merge(tags, groupBys, nw) != Err(NoTagOrGroupBy)
    ensures Merge(tags, groupBys, nw) != Err(NegativeCapacity)
    decreases |tags| + |groupBys|
  {
    if !(tags == [] && groupBys == []) {
      var next := IsTagNext(nw, Head(tags), Head(groupBys));
      IsTagNextOrder(nw, Head(tags), Head(groupBys));
      if next == Ok(true) {
        MergeNeverEmpty(tags[1..], groupBys, nw);
      } else if next == Ok(false) {
        MergeNeverEmpty(tags, groupBys[1..], nw);
      }
    }
  }

  /** With tags sorted by name id and group-bys that are name ids, the
      expression fails exactly when the capacity estimate is negative, there
      is nothing to write, or a tag and a group-by share a name id; otherwise
      every tag and group-by appears, in ascending name-id order. */
  lemma KeyRegexOutcome(mw: nat, nw: nat, vw: nat, tags: seq<Id>, groupBys: Option<seq<Id>>,
                        groupByValues: Option<map<Id, seq<Id>>>)
    requires AllWide(tags, nw) && NamesSorted(tags, nw)
    requires groupBys.Some? ==> forall x :: x in groupBys.value ==> |x| == nw
    ensures WideIds(tags, groupBys, nw)
    ensures AllWide(SortedGroupBys(groupBys), nw)
    ensures KeyRegex(mw, nw, vw, tags, groupBys, groupByValues).Err? <==>
      || Capacity(nw, vw, |tags|, |SortedGroupBys(groupBys)|) < 0
      || (tags == [] && SortedGroupBys(groupBys) == []) || SharedName(tags, SortedGroupBys(groupBys), nw)
    ensures KeyRegex(mw, nw, vw, tags, groupBys, groupByValues).Ok? ==>
      var items := Merge(tags, SortedGroupBys(groupBys), nw).value;
      && KeyRegex(mw, nw, vw, tags, groupBys, groupByValues).value
         == Header(mw) + Segments(items, TagSize(nw, vw), vw, groupByValues) + Trailer(TagSize(nw, vw))
      && TagsOf(items) == tags && GroupBysOf(items) == SortedGroupBys(groupBys)
      && AllWide(ItemIds(items), nw) && NamesSorted(ItemIds(items), nw)
  {
    var gbs := SortedGroupBys(groupBys);
    if groupBys.Some? {
      SortedGroupBysByName(groupBys.value, nw);
    }
    MergeFailsIffShared(tags, gbs, nw);
    MergeInterleaves(tags, gbs, nw);
    MergeAscending(tags, gbs, nw);
    if tags == [] && gbs == [] {
      assert !SharedName(tags, gbs, nw);
    }
  }

  // ---------------------------------------------------------------------
  // The builder itself.
  // ---------------------------------------------------------------------

  /** The part of the loop body that follows a group-by's name id. */
  method AppendValues(buf: string, name: Id, vw: nat, groupByValues: Option<map<Id, seq<Id>>>)
    returns (out: string)
    ensures out == buf + ValuesText(name, vw, groupByValues)
  {
    if groupByValues.None? || name !in groupByValues.value {
      out := buf + (".{" + Decimal(vw) + "}");
    } else {
      var valueIds := groupByValues.value[name];
      out := AppendAlternatives(buf + "(?:", valueIds);
      CloseGroup(buf, Alternatives(valueIds));
      out := out[..|out| - 1] + [')'];
    }
  }

  /** The inner loop: each allowed value quoted and followed by `|`. */
  method AppendAlternatives(start: string, valueIds: seq<Id>) returns (out: string)
    ensures out == start + Alternatives(valueIds)
  {
    out := start;
    var k := 0;
    while k < |valueIds|
      invariant k <= |valueIds|
      invariant out == start + Alternatives(valueIds[..k])
    {
      out := out + "\\Q";
      out := AddIdAsWritten(out, valueIds[k]);
      out := out + "|";
      AlternativesSnoc(valueIds, k);
      AlternativeText(start, Alternatives(valueIds[..k]), valueIds[k]);
      k := k + 1;
    }
    assert valueIds[..k] == valueIds;
  }

  lemma AlternativesSnoc(values: seq<Id>, k: nat)
    requires k < |values|
    ensures Alternatives(values[..k + 1]) == Alternatives(values[..k]) + Literal(values[k]) + "|"
  {
    assert values[..k + 1][..k] == values[..k];
  }

  /** One value's text regrouped; stated apart to keep the loop cheap. */
  lemma AlternativeText(start: string, alts: string, id: Id)
    ensures start + alts + "\\Q" + QuoteIdAsWritten(id) + "|" == start + (alts + Literal(id) + "|")
  {
  }

  /** Turning the last `|` into `)` closes the group after what came before. */
  lemma CloseGroup(buf: string, alts: string)
    ensures var s := buf + "(?:" + alts;
      s[..|s| - 1] + [')'] == buf + ReplaceLast("(?:" + alts, ')')
  {
    var t := "(?:" + alts;
    var s := buf + "(?:" + alts;
    assert s == buf + t;
    assert s[..|s| - 1] == buf + t[..|t| - 1];
  }

  /** `tags.hasNext() ? tags.next() : null` with the iterator at `i`. */
  function At(s: seq<Id>, i: nat): (h: Option<Id>)
    ensures h.Some? <==> i < |s|
    ensures h.Some? ==> h.value == s[i]
  {
    if i < |s| then Some(s[i]) else None
  }

  /** The walk from iterator positions `ti` and `gi`. */
  function MergeFrom(tags: seq<Id>, groupBys: seq<Id>, nw: nat, ti: nat, gi: nat): Result<seq<Item>, FilterError>
    requires ti <= |tags| && gi <= |groupBys|
    requires AllWide(tags, nw) && AllWide(groupBys, nw)
    decreases |tags| - ti + |groupBys| - gi
  {
    if ti == |tags| && gi == |groupBys| then Ok([])
    else match IsTagNext(nw, At(tags, ti), At(groupBys, gi))
      case Err(e) => Err(e)
      case Ok(tagNext) =>
        if tagNext then Cons(TagItem(tags[ti]), MergeFrom(tags, groupBys, nw, ti + 1, gi))
        else Cons(GroupByItem(groupBys[gi]), MergeFrom(tags, groupBys, nw, ti, gi + 1))
  }

  /** One step of the walk. */
  lemma MergeFromStep(tags: seq<Id>, groupBys: seq<Id>, nw: nat, ti: nat, gi: nat, tagNext: bool)
    requires ti <= |tags| && gi <= |groupBys|
    requires AllWide(tags, nw) && AllWide(groupBys, nw)
    requires ti < |tags| || gi < |groupBys|
    requires IsTagNext(nw, At(tags, ti), At(groupBys, gi)) == Ok(tagNext)
    ensures tagNext ==>
      ti < |tags| &&
      MergeFrom(tags, groupBys, nw, ti, gi) == Cons(TagItem(tags[ti]), MergeFrom(tags, groupBys, nw, ti + 1, gi))
    ensures !tagNext ==>
      gi < |groupBys| &&
      MergeFrom(tags, groupBys, nw, ti, gi) == Cons(GroupByItem(groupBys[gi]), MergeFrom(tags, groupBys, nw, ti, gi + 1))
  {
  }

  /** The walk's outcome once one more item is written. */
  lemma WalkAdvance(whole: Result<seq<Item>, FilterError>, done: seq<Item>, item: Item,
                    here: Result<seq<Item>, FilterError>, next: Result<seq<Item>, FilterError>)
    requires whole == Then(done, here) && here == Cons(item, next)
    ensures whole == Then(done + [item], next)
  {
    ThenCons(done, item, next);
  }

  lemma {:induction false} MergeFromSlices(tags: seq<Id>, groupBys: seq<Id>, nw: nat, ti: nat, gi: nat)
    requires ti <= |tags| && gi <= |groupBys|
    requires AllWide(tags, nw) && AllWide(groupBys, nw)
    ensures AllWide(tags[ti..], nw) && AllWide(groupBys[gi..], nw)
    ensures MergeFrom(tags, groupBys, nw, ti, gi) == Merge(tags[ti..], groupBys[gi..], nw)
    decreases |tags| - ti + |groupBys| - gi
  {
    assert forall x :: x in tags[ti..] ==> x in tags;
    assert forall x :: x in groupBys[gi..] ==> x in groupBys;
    if !(ti == |tags| && gi == |groupBys|) {
      assert At(tags, ti) == Head(tags[ti..]) && At(groupBys, gi) == Head(groupBys[gi..]);
      var next := IsTagNext(nw, At(tags, ti), At(groupBys, gi));
      if next == Ok(true) {
        MergeFromSlices(tags, groupBys, nw, ti + 1, gi);
        assert tags[ti..][1..] == tags[ti + 1..];
      } else if next == Ok(false) {
        MergeFromSlices(tags, groupBys, nw, ti, gi + 1);
        assert groupBys[gi..][1..] == groupBys[gi + 1..];
      }
    }
  }

  /** String concatenation regrouped; stated apart to keep `Advance` small. */
  lemma Regroup3(a: string, b: string, c: string)
    ensures a + b + c == a + (b + c)
  {
  }

  lemma SegmentsSnoc(done: seq<Item>, item: Item, tagsize: int, vw: nat,
                     groupByValues: Option<map<Id, seq<Id>>>)
    ensures Segments(done + [item], tagsize, vw, groupByValues)
      == Segments(done, tagsize, vw, groupByValues) + Segment(item, tagsize, vw, groupByValues)
  {
    assert (done + [item])[..|done|] == done;
  }

  lemma TagSegment(before: string, id: Id, tagsize: int, vw: nat,
                   groupByValues: Option<map<Id, seq<Id>>>)
    ensures before + SkipTags(tagsize) + "\\Q" + QuoteIdAsWritten(id)
      == before + Segment(TagItem(id), tagsize, vw, groupByValues)
  {
    assert SkipTags(tagsize) + Literal(id) + "" == SkipTags(tagsize) + "\\Q" + QuoteIdAsWritten(id);
  }

  lemma GroupBySegment(before: string, id: Id, tagsize: int, vw: nat,
                       groupByValues: Option<map<Id, seq<Id>>>)
    ensures before + SkipTags(tagsize) + "\\Q" + QuoteIdAsWritten(id) + ValuesText(id, vw, groupByValues)
      == before + Segment(GroupByItem(id), tagsize, vw, groupByValues)
  {
  }

  lemma BuildRegexOfMerge(mw: nat, nw: nat, vw: nat, tags: seq<Id>, groupBys: seq<Id>,
                          groupByValues: Option<map<Id, seq<Id>>>, r: Result<seq<Item>, FilterError>)
    requires AllWide(tags, nw) && AllWide(groupBys, nw)
    requires tags != [] || groupBys != []
    requires Capacity(nw, vw, |tags|, |groupBys|) >= 0
    requires Merge(tags, groupBys, nw) == r
    ensures r.Err? ==> BuildRegex(mw, nw, vw, tags, groupBys, groupByValues) == Err(r.error)
    ensures r.Ok? ==>
      BuildRegex(mw, nw, vw, tags, groupBys, groupByValues)
        == Ok(Header(mw) + Segments(r.value, TagSize(nw, vw), vw, groupByValues) + Trailer(TagSize(nw, vw)))
  {
  }

  /** One pass of the loop body once the next item is known: skip tags,
      open a quote, write the id, then, for a group-by, its values. */
  method AppendSegment(buf: string, item: Item, tagsize: int, vw: nat,
                       groupByValues: Option<map<Id, seq<Id>>>) returns (out: string)
    ensures out == buf + Segment(item, tagsize, vw, groupByValues)
  {
    out := buf + SkipTags(tagsize) + "\\Q";
    out := AddIdAsWritten(out, ItemId(item));
    if item.TagItem? {
      TagSegment(buf, item.tag, tagsize, vw, groupByValues);
    } else {
      out := AppendValues(out, item.name, vw, groupByValues);
      GroupBySegment(buf, item.name, tagsize, vw, groupByValues);
    }
  }

  /** `createAndSetFilter`: sorts the group-bys in place (returned as the
      field is left), then writes the expression. */
  method CreateAndSetFilter(mw: nat, nw: nat, vw: nat, tags: seq<Id>, groupBys: Option<seq<Id>>,
                            groupByValues: Option<map<Id, seq<Id>>>)
    returns (sortedGroupBys: Option<seq<Id>>, r: Result<string, FilterError>)
    requires WideIds(tags, groupBys, nw)
    ensures sortedGroupBys.Some? <==> groupBys.Some?
    ensures groupBys.Some? ==> sortedGroupBys.value == SortIds(groupBys.value)
    ensures r == KeyRegex(mw, nw, vw, tags, groupBys, groupByValues)
  {
    sortedGroupBys := if groupBys.Some? then Some(SortIds(groupBys.value)) else None;
    SortedGroupBysWide(groupBys, nw);
    r := WriteRegex(mw, nw, vw, tags, SortedGroupBys(groupBys), groupByValues);
  }

  /** What the loop has done so far: the walk from the iterator positions
      `ti`, `gi` finishes the whole walk after `done`, and `buf` holds the
      header and one segment per item of `done`. */
  ghost predicate Walked(mw: nat, nw: nat, vw: nat, tags: seq<Id>, gbs: seq<Id>,
                         groupByValues: Option<map<Id, seq<Id>>>,
                         ti: nat, gi: nat, buf: string, done: seq<Item>)
  {
    && ti <= |tags| && gi <= |gbs|
    && AllWide(tags, nw) && AllWide(gbs, nw)
    && Merge(tags, gbs, nw) == Then(done, MergeFrom(tags, gbs, nw, ti, gi))
    && buf == Header(mw) + Segments(done, TagSize(nw, vw), vw, groupByValues)
  }

  /** One pass of the loop body once the order check has passed: write the
      next item and move its iterator on. */
  method Advance(mw: nat, nw: nat, vw: nat, tags: seq<Id>, gbs: seq<Id>,
                 groupByValues: Option<map<Id, seq<Id>>>,
                 ti: nat, gi: nat, buf: string, ghost done: seq<Item>, tagNext: bool)
    returns (ti': nat, gi': nat, buf': string, ghost done': seq<Item>)
    requires Walked(mw, nw, vw, tags, gbs, groupByValues, ti, gi, buf, done)
    requires ti < |tags| || gi < |gbs|
    requires IsTagNext(nw, At(tags, ti), At(gbs, gi)) == Ok(tagNext)
    ensures Walked(mw, nw, vw, tags, gbs, groupByValues, ti', gi', buf', done')
    ensures ti' + gi' == ti + gi + 1
  {
    MergeFromStep(tags, gbs, nw, ti, gi, tagNext);
    ghost var here := MergeFrom(tags, gbs, nw, ti, gi);
    var item: Item;
    if tagNext {
      item := TagItem(tags[ti]);
      ti', gi' := ti + 1, gi;
    } else {
      item := GroupByItem(gbs[gi]);
      ti', gi' := ti, gi + 1;
    }
    var tagsize := TagSize(nw, vw);
    buf' := AppendSegment(buf, item, tagsize, vw, groupByValues);
    WalkAdvance(Merge(tags, gbs, nw), done, item, here, MergeFrom(tags, gbs, nw, ti', gi'));
    SegmentsSnoc(done, item, tagsize, vw, groupByValues);
    Regroup3(Header(mw), Segments(done, tagsize, vw, groupByValues), Segment(item, tagsize, vw, groupByValues));
    done' := done + [item];
  }

  /** Before the first pass nothing is written but the header. */
  lemma WalkStart(mw: nat, nw: nat, vw: nat, tags: seq<Id>, gbs: seq<Id>,
                  groupByValues: Option<map<Id, seq<Id>>>)
    requires AllWide(tags, nw) && AllWide(gbs, nw)
    ensures Walked(mw, nw, vw, tags, gbs, groupByValues, 0, 0, Header(mw), [])
  {
    MergeFromSlices(tags, gbs, nw, 0, 0);
    assert tags[0..] == tags && gbs[0..] == gbs;
    assert Header(mw) + "" == Header(mw);
    var whole := Merge(tags, gbs, nw);
    if whole.Ok? {
      assert [] + whole.value == whole.value;
    }
  }

  /** Once both lists are used up, the header and segments written so far,
      followed by the trailer, are the whole expression. */
  lemma WalkEnd(mw: nat, nw: nat, vw: nat, tags: seq<Id>, gbs: seq<Id>,
                groupByValues: Option<map<Id, seq<Id>>>, buf: string, done: seq<Item>)
    requires Walked(mw, nw, vw, tags, gbs, groupByValues, |tags|, |gbs|, buf, done)
    requires tags != [] || gbs != []
    requires Capacity(nw, vw, |tags|, |gbs|) >= 0
    ensures BuildRegex(mw, nw, vw, tags, gbs, groupByValues) == Ok(buf + Trailer(TagSize(nw, vw)))
  {
    assert Merge(tags, gbs, nw) == Ok(done + []);
    assert done + [] == done;
    BuildRegexOfMerge(mw, nw, vw, tags, gbs, groupByValues, Merge(tags, gbs, nw));
  }

  /** A failing order check fails the whole expression the same way. */
  lemma WalkFails(mw: nat, nw: nat, vw: nat, tags: seq<Id>, gbs: seq<Id>,
                  groupByValues: Option<map<Id, seq<Id>>>, ti: nat, gi: nat, buf: string, done: seq<Item>)
    requires Walked(mw, nw, vw, tags, gbs, groupByValues, ti, gi, buf, done)
    requires ti < |tags| || gi < |gbs|
    requires IsTagNext(nw, At(tags, ti), At(gbs, gi)).Err?
    requires Capacity(nw, vw, |tags|, |gbs|) >= 0
    ensures BuildRegex(mw, nw, vw, tags, gbs, groupByValues)
            == Err(IsTagNext(nw, At(tags, ti), At(gbs, gi)).error)
  {
    BuildRegexOfMerge(mw, nw, vw, tags, gbs, groupByValues, Merge(tags, gbs, nw));
  }

  /** The builder of `createAndSetFilter`: allocates the `StringBuilder`,
      then the do-while walks the tags and the sorted group-bys and writes
      one segment per item. */
  method WriteRegex(mw: nat, nw: nat, vw: nat, tags: seq<Id>, gbs: seq<Id>,
                    groupByValues: Option<map<Id, seq<Id>>>)
    returns (r: Result<string, FilterError>)
    requires AllWide(tags, nw) && AllWide(gbs, nw)
    ensures r == BuildRegex(mw, nw, vw, tags, gbs, groupByValues)
  {
    var tagsize := TagSize(nw, vw);
    var capacity := Wrap32(15 + (13 + tagsize) * (|tags| + |gbs| * 3));
    if capacity < 0 {
      return Err(NegativeCapacity);
    }
    var buf := Header(mw);
    var ti, gi := 0, 0;
    var tag, groupBy := At(tags, 0), At(gbs, 0);
    ghost var done: seq<Item> := [];
    WalkStart(mw, nw, vw, tags, gbs, groupByValues);
    while true
      invariant Walked(mw, nw, vw, tags, gbs, groupByValues, ti, gi, buf, done)
      invariant tag == At(tags, ti) && groupBy == At(gbs, gi)
      invariant (ti == 0 && gi == 0) || tag.Some? || groupBy.Some?
      decreases |tags| - ti + |gbs| - gi
    {
      var tagNext := IsTagNext(nw, tag, groupBy);
      if tagNext.Err? {
        WalkFails(mw, nw, vw, tags, gbs, groupByValues, ti, gi, buf, done);
        r := Err(tagNext.error);
        return;
      }
      if !tagNext.value && groupBy.None? {
        // addId(buf, null)
        r := Err(NoTagOrGroupBy);
        return;
      }
      ti, gi, buf, done := Advance(mw, nw, vw, tags, gbs, groupByValues, ti, gi, buf, done, tagNext.value);
      tag, groupBy := At(tags, ti), At(gbs, gi);
      if tag.None? && groupBy.None? {
        break;
      }
    }
    WalkEnd(mw, nw, vw, tags, gbs, groupByValues, buf, done);
    buf := buf + Trailer(TagSize(nw, vw));
    r := Ok(buf);
  }
}
