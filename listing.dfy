/** The listing handler, `GET /files` (routes/uploadRoute.js, l.93-131): one record per
    directory entry, sorted newest first by modification time, then cut into a page. */
module Listing {
  import opened Wrappers
  import opened Pagination

  /** A directory entry with what `fs.statSync` reports of it: size in bytes and
      modification time in milliseconds since the epoch. */
  datatype DirEntry = DirEntry(name: string, size: nat, mtime: int)

  /** One element of the `files` list of the response. */
  datatype FileInfo = FileInfo(filename: string, url: string, size: nat, uploadDate: int, mimetype: string)

  datatype ListBody =
    | ListError(error: string)
    | ListPage(files: seq<FileInfo>, currentPage: int, totalPages: int, totalFiles: nat)

  datatype ListResponse = ListResponse(status: nat, body: ListBody)

  const ReadErrorMessage := "Error reading files"

  /** The `files.map` callback; `extname` stands for `path.extname`. */
  function Describe(e: DirEntry, extname: string -> string): (r: FileInfo)
    ensures r.url == "/uploads/" + r.filename && r.filename == e.name
    ensures r.size == e.size && r.uploadDate == e.mtime && r.mimetype == extname(r.filename)
  {
    FileInfo(e.name, "/uploads/" + e.name, e.size, e.mtime, extname(e.name))
  }

  function DescribeAll(entries: seq<DirEntry>, extname: string -> string): (r: seq<FileInfo>)
    ensures |r| == |entries|
    ensures forall i :: 0 <= i < |entries| ==> r[i] == Describe(entries[i], extname)
  {
    seq(|entries|, i requires 0 <= i < |entries| => Describe(entries[i], extname))
  }

  // ---------------------------------------------------------------------------
  // The order of `.sort((a, b) => b.uploadDate - a.uploadDate)`

  /** Newest first: modification times never increase along the list. */
  predicate NonIncreasing(s: seq<FileInfo>) {
    forall i, j :: 0 <= i < j < |s| ==> s[i].uploadDate >= s[j].uploadDate
  }

  /** The entries of `s` dated `d`, in their order in `s`. */
  function WithDate(s: seq<FileInfo>, d: int): seq<FileInfo> {
    if s == [] then []
    else
      var last := s[|s| - 1];
      WithDate(s[..|s| - 1], d) + (if last.uploadDate == d then [last] else [])
  }

  /** Puts `x` after every entry dated at or after it: the step of a stable insertion sort. */
  function Insert(sorted: seq<FileInfo>, x: FileInfo): (r: seq<FileInfo>)
    ensures |r| == |sorted| + 1
  {
    if sorted == [] || sorted[|sorted| - 1].uploadDate >= x.uploadDate then sorted + [x]
    else Insert(sorted[..|sorted| - 1], x) + [sorted[|sorted| - 1]]
  }

  /** The list sorted newest first, entries with equal dates kept in directory order.
      ECMAScript 2019 and later require `Array.prototype.sort` to be stable, so this is
      what the comparator `b.uploadDate - a.uploadDate` yields (see `StableSortIsUnique`). */
  function SortByDate(s: seq<FileInfo>): (r: seq<FileInfo>)
    ensures |r| == |s|
  {
    if s == [] then [] else Insert(SortByDate(s[..|s| - 1]), s[|s| - 1])
  }

  /** Where `Insert` puts `x`: after the prefix dated at or after it, before the later entries dated before it. */
  lemma {:induction false} InsertAt(sorted: seq<FileInfo>, x: FileInfo, j: nat)
    requires j <= |sorted|
    requires j == 0 || sorted[j - 1].uploadDate >= x.uploadDate
    requires forall k :: j <= k < |sorted| ==> sorted[k].uploadDate < x.uploadDate
    ensures Insert(sorted, x) == sorted[..j] + [x] + sorted[j..]
  {
    var n := |sorted|;
    if j < n {
      var init := sorted[..n - 1];
      InsertAt(init, x, j);
      assert init[..j] == sorted[..j];
      assert init[j..] + [sorted[n - 1]] == sorted[j..];
    } else {
      assert sorted[..j] == sorted;
    }
  }

  lemma {:induction false} InsertPermutes(sorted: seq<FileInfo>, x: FileInfo)
    ensures multiset(Insert(sorted, x)) == multiset(sorted) + multiset{x}
  {
    var n := |sorted|;
    if !(sorted == [] || sorted[n - 1].uploadDate >= x.uploadDate) {
      var init := sorted[..n - 1];
      InsertPermutes(init, x);
      assert sorted == init + [sorted[n - 1]];
    }
  }

  /** No entry of `s` is dated before `bound`. */
  predicate DatedFrom(s: seq<FileInfo>, bound: int) {
    forall i :: 0 <= i < |s| ==> s[i].uploadDate >= bound
  }

  lemma {:induction false} InsertKeepsBound(sorted: seq<FileInfo>, x: FileInfo, bound: int)
    requires DatedFrom(sorted, bound) && x.uploadDate >= bound
    ensures DatedFrom(Insert(sorted, x), bound)
  {
    var n := |sorted|;
    if !(sorted == [] || sorted[n - 1].uploadDate >= x.uploadDate) {
      InsertKeepsBound(sorted[..n - 1], x, bound);
    }
  }

  lemma {:induction false} InsertKeepsOrder(sorted: seq<FileInfo>, x: FileInfo)
    requires NonIncreasing(sorted)
    ensures NonIncreasing(Insert(sorted, x))
  {
    var n := |sorted|;
    if !(sorted == [] || sorted[n - 1].uploadDate >= x.uploadDate) {
      var init, last := sorted[..n - 1], sorted[n - 1];
      InsertKeepsOrder(init, x);
      InsertKeepsBound(init, x, last.uploadDate);
    }
  }

  lemma {:induction false} InsertIsStable(sorted: seq<FileInfo>, x: FileInfo, d: int)
    ensures WithDate(Insert(sorted, x), d) == WithDate(sorted, d) + (if x.uploadDate == d then [x] else [])
  {
    var n := |sorted|;
    if sorted == [] || sorted[n - 1].uploadDate >= x.uploadDate {
      assert (sorted + [x])[..n] == sorted;
    } else {
      var init, last := sorted[..n - 1], sorted[n - 1];
      InsertIsStable(init, x, d);
      var ins := Insert(init, x);
      assert (ins + [last])[..|ins|] == ins;
    }
  }

  /** The listing is newest first. */
  lemma {:induction false} SortByDateIsNonIncreasing(s: seq<FileInfo>)
    ensures NonIncreasing(SortByDate(s))
  {
    if s != [] {
      SortByDateIsNonIncreasing(s[..|s| - 1]);
      InsertKeepsOrder(SortByDate(s[..|s| - 1]), s[|s| - 1]);
    }
  }

  /** The listing holds every directory entry, each as often as the directory does. */
  lemma {:induction false} SortByDateIsPermutation(s: seq<FileInfo>)
    ensures multiset(SortByDate(s)) == multiset(s)
  {
    if s != [] {
      var init := s[..|s| - 1];
      SortByDateIsPermutation(init);
      InsertPermutes(SortByDate(init), s[|s| - 1]);
      assert s == init + [s[|s| - 1]];
    }
  }

  /** Entries with the same date keep their directory order. */
  lemma {:induction false} SortByDateIsStable(s: seq<FileInfo>, d: int)
    ensures WithDate(SortByDate(s), d) == WithDate(s, d)
  {
    if s != [] {
      var init := s[..|s| - 1];
      SortByDateIsStable(init, d);
      InsertIsStable(SortByDate(init), s[|s| - 1], d);
    }
  }

  // ---------------------------------------------------------------------------
  // Any stable sort gives `SortByDate`

  lemma {:induction false} WithDateAppend(a: seq<FileInfo>, b: seq<FileInfo>, d: int)
    ensures WithDate(a + b, d) == WithDate(a, d) + WithDate(b, d)
  {
    if b != [] {
      var init := b[..|b| - 1];
      WithDateAppend(a, init, d);
      assert (a + b)[..|a + b| - 1] == a + init;
    } else {
      assert a + b == a;
    }
  }

  lemma {:induction false} WithDateNone(s: seq<FileInfo>, d: int)
    requires forall k :: 0 <= k < |s| ==> s[k].uploadDate != d
    ensures WithDate(s, d) == []
  {
    if s != [] {
      WithDateNone(s[..|s| - 1], d);
    }
  }

  /** The last entry dated `d`, found from the end. */
  lemma {:induction false} LastWithDate(s: seq<FileInfo>, d: int) returns (p: nat)
    requires WithDate(s, d) != []
    ensures p < |s| && s[p].uploadDate == d
    ensures forall k :: p < k < |s| ==> s[k].uploadDate != d
    ensures WithDate(s, d) == WithDate(s[..p], d) + [s[p]]
  {
    var n := |s|;
    if s[n - 1].uploadDate == d {
      p := n - 1;
    } else {
      p := LastWithDate(s[..n - 1], d);
      assert s[..n - 1][..p] == s[..p];
    }
  }

  lemma RemoveKeepsOrder(t: seq<FileInfo>, p: nat)
    requires p < |t| && NonIncreasing(t)
    ensures NonIncreasing(t[..p] + t[p + 1..])
  {
    var rest := t[..p] + t[p + 1..];
    forall i, j | 0 <= i < j < |rest| ensures rest[i].uploadDate >= rest[j].uploadDate {
      var ti := if i < p then i else i + 1;
      var tj := if j < p then j else j + 1;
      assert rest[i] == t[ti] && rest[j] == t[tj];
    }
  }

  lemma WithDateSingle(x: FileInfo, d: int)
    ensures WithDate([x], d) == if x.uploadDate == d then [x] else []
  {
    assert [x][..0] == [];
  }

  /** Taking out the last entry dated `t[p].uploadDate` takes it off the end of that date's entries only. */
  lemma RemoveLastDated(t: seq<FileInfo>, p: nat, d: int)
    requires p < |t|
    requires forall k :: p < k < |t| ==> t[k].uploadDate != t[p].uploadDate
    ensures WithDate(t, d)
         == WithDate(t[..p] + t[p + 1..], d) + (if t[p].uploadDate == d then [t[p]] else [])
  {
    assert t == t[..p] + [t[p]] + t[p + 1..];
    RemoveMiddle(t[..p], t[p], t[p + 1..], d);
  }

  lemma RemoveMiddle(before: seq<FileInfo>, x: FileInfo, after: seq<FileInfo>, d: int)
    requires forall k :: 0 <= k < |after| ==> after[k].uploadDate != x.uploadDate
    ensures WithDate(before + [x] + after, d)
         == WithDate(before + after, d) + (if x.uploadDate == d then [x] else [])
  {
    var bx := before + [x];
    WithDateAppend(bx, after, d);
    WithDateAppend(before, [x], d);
    WithDateAppend(before, after, d);
    WithDateSingle(x, d);
    var wb, wa := WithDate(before, d), WithDate(after, d);
    if x.uploadDate == d {
      WithDateNone(after, d);
      assert wb + [x] + wa == wb + wa + [x];
    } else {
      assert wb + [] + wa == wb + wa + [];
    }
  }

  /** In a list that matches `s` date by date, the last entry of `s` is the last entry of its date. */
  lemma FindLastOfInput(s: seq<FileInfo>, t: seq<FileInfo>) returns (p: nat)
    requires s != []
    requires forall d :: WithDate(t, d) == WithDate(s, d)
    ensures p < |t| && t[p] == s[|s| - 1]
    ensures forall k :: p < k < |t| ==> t[k].uploadDate != t[p].uploadDate
  {
    var x := s[|s| - 1];
    var dx := x.uploadDate;
    assert WithDate(s, dx) == WithDate(s[..|s| - 1], dx) + [x];
    assert WithDate(t, dx) == WithDate(s, dx);
    p := LastWithDate(t, dx);
    assert WithDate(t, dx)[|WithDate(t, dx)| - 1] == t[p];
  }

  /** Without that entry, the rest matches the rest of `s` date by date. */
  lemma RemovedMatches(s: seq<FileInfo>, t: seq<FileInfo>, p: nat, init: seq<FileInfo>, rest: seq<FileInfo>)
    requires s != [] && p < |t| && t[p] == s[|s| - 1]
    requires init == s[..|s| - 1] && rest == t[..p] + t[p + 1..]
    requires forall k :: p < k < |t| ==> t[k].uploadDate != t[p].uploadDate
    requires forall d :: WithDate(t, d) == WithDate(s, d)
    ensures forall d :: WithDate(rest, d) == WithDate(init, d)
  {
    var x := t[p];
    forall d ensures WithDate(rest, d) == WithDate(init, d) {
      RemoveLastDated(t, p, d);
      var tail := if x.uploadDate == d then [x] else [];
      assert WithDate(s, d) == WithDate(init, d) + tail;
      assert WithDate(rest, d) + tail == WithDate(init, d) + tail;
      assert WithDate(rest, d) == (WithDate(rest, d) + tail)[..|WithDate(rest, d)|];
    }
  }

  /** Putting the last entry of its date back with `Insert` restores a newest-first list. */
  lemma ReinsertRestores(t: seq<FileInfo>, p: nat)
    requires p < |t| && NonIncreasing(t)
    requires forall k :: p < k < |t| ==> t[k].uploadDate != t[p].uploadDate
    ensures Insert(t[..p] + t[p + 1..], t[p]) == t
  {
    var rest, x := t[..p] + t[p + 1..], t[p];
    forall k | p <= k < |rest| ensures rest[k].uploadDate < x.uploadDate {
      assert rest[k] == t[k + 1];
    }
    assert p == 0 || rest[p - 1] == t[p - 1];
    InsertAt(rest, x, p);
    assert rest[..p] == t[..p] && rest[p..] == t[p + 1..];
    assert t == t[..p] + [x] + t[p + 1..];
  }

  /** An entry occurs in a list as often as it occurs among the list's entries of its date. */
  lemma {:induction false} CountWithinDate(s: seq<FileInfo>, e: FileInfo)
    ensures multiset(WithDate(s, e.uploadDate))[e] == multiset(s)[e]
  {
    if s != [] {
      var init := s[..|s| - 1];
      CountWithinDate(init, e);
      assert s == init + [s[|s| - 1]];
    }
  }

  /** Lists that match date by date hold the same entries, so they have the same length. */
  lemma MatchingListsPermute(s: seq<FileInfo>, t: seq<FileInfo>)
    requires forall d :: WithDate(t, d) == WithDate(s, d)
    ensures multiset(t) == multiset(s) && |t| == |s|
  {
    forall e ensures multiset(t)[e] == multiset(s)[e] {
      CountWithinDate(s, e);
      CountWithinDate(t, e);
      assert WithDate(t, e.uploadDate) == WithDate(s, e.uploadDate);
    }
    assert multiset(t) == multiset(s);
    assert |multiset(t)| == |t| && |multiset(s)| == |s|;
  }

  /** The comparator leaves only the order among equal dates open, and stability fixes
      it: a newest-first list that keeps the directory order within every date is `SortByDate`. */
  lemma {:induction false} StableSortIsUnique(s: seq<FileInfo>, t: seq<FileInfo>)
    requires NonIncreasing(t)
    requires forall d :: WithDate(t, d) == WithDate(s, d)
    ensures t == SortByDate(s)
    decreases |s|
  {
    MatchingListsPermute(s, t);
    if s != [] {
      var p := FindLastOfInput(s, t);
      var init, rest := s[..|s| - 1], t[..p] + t[p + 1..];
      RemovedMatches(s, t, p, init, rest);
      RemoveKeepsOrder(t, p);
      StableSortIsUnique(init, rest);
      ReinsertRestores(t, p);
    }
  }

  lemma StretchKeepsOrder(s: seq<FileInfo>, from: nat, to: nat)
    requires from <= to <= |s| && NonIncreasing(s)
    ensures NonIncreasing(s[from..to])
  {
    var part := s[from..to];
    forall i, j | 0 <= i < j < |part| ensures part[i].uploadDate >= part[j].uploadDate {
      assert part[i] == s[from + i] && part[j] == s[from + j];
    }
  }

  /** Whatever the page and limit, the page is a stretch of the sorted list: newest
      first, and made only of directory entries. */
  lemma PageIsNewestFirst(entries: seq<DirEntry>, extname: string -> string, page: int, limit: int)
    ensures var files := Page(SortByDate(DescribeAll(entries, extname)), page, limit);
      && NonIncreasing(files)
      && multiset(files) <= multiset(DescribeAll(entries, extname))
  {
    var all := DescribeAll(entries, extname);
    var sorted := SortByDate(all);
    SortByDateIsNonIncreasing(all);
    SortByDateIsPermutation(all);
    var start := (page - 1) * limit;
    var from, to := RelativeIndex(start, |sorted|), RelativeIndex(start + limit, |sorted|);
    if from < to {
      StretchKeepsOrder(sorted, from, to);
      StretchInside(sorted, from, to);
    }
  }

  /** Every record on a page describes a directory entry: it has that entry's name,
      size and mtime, the extension of the name, and the url "/uploads/" + name. */
  lemma PageRecordsComeFromDirectory(entries: seq<DirEntry>, extname: string -> string, page: int, limit: int)
    ensures forall r :: r in Page(SortByDate(DescribeAll(entries, extname)), page, limit) ==>
      && r.url == "/uploads/" + r.filename
      && exists e :: e in entries && e.name == r.filename && e.size == r.size
                     && e.mtime == r.uploadDate && r.mimetype == extname(e.name)
  {
    var all := DescribeAll(entries, extname);
    SortByDateIsPermutation(all);
    forall r | r in Page(SortByDate(all), page, limit)
      ensures r.url == "/uploads/" + r.filename
      ensures exists e :: e in entries && e.name == r.filename && e.size == r.size
                          && e.mtime == r.uploadDate && r.mimetype == extname(e.name)
    {
      assert r in SortByDate(all);
      assert r in multiset(SortByDate(all));
      assert r in all;
      var i :| 0 <= i < |all| && all[i] == r;
      assert entries[i] in entries;
    }
  }

  // ---------------------------------------------------------------------------
  // The handler

  /** One pass of the insertion sort: moves `a[i]` left past the records dated strictly
      before it, so that the first i + 1 records become `Insert(a[..i], a[i])`. */
  method MoveIntoPlace(a: array<FileInfo>, i: nat)
    requires i < a.Length
    modifies a
    ensures a[..i + 1] == Insert(old(a[..i]), old(a[i]))
    ensures forall k :: i < k < a.Length ==> a[k] == old(a[k])
  {
    ghost var sorted := a[..i];
    var x := a[i];
    var j := i;
    while j > 0 && a[j - 1].uploadDate < x.uploadDate
      invariant 0 <= j <= i
      invariant forall k :: 0 <= k < j ==> a[k] == sorted[k]
      invariant a[j] == x
      invariant forall k :: j < k <= i ==> a[k] == sorted[k - 1]
      invariant forall k :: j <= k < i ==> sorted[k].uploadDate < x.uploadDate
      invariant forall k :: i < k < a.Length ==> a[k] == old(a[k])
    {
      a[j - 1], a[j] := a[j], a[j - 1];
      j := j - 1;
    }
    assert a[..i + 1] == sorted[..j] + [x] + sorted[j..];
    InsertAt(sorted, x, j);
  }

  /** `Array.prototype.sort` on the records, in place, as an insertion sort. */
  method SortByUploadDate(a: array<FileInfo>)
    modifies a
    ensures a[..] == SortByDate(old(a[..]))
  {
    ghost var input := a[..];
    for i := 0 to a.Length
      invariant a[..i] == SortByDate(input[..i])
      invariant forall k :: i <= k < a.Length ==> a[k] == input[k]
    {
      ghost var prefix := input[..i + 1];
      assert prefix[..i] == input[..i] && prefix[i] == input[i];
      assert SortByDate(prefix) == Insert(SortByDate(input[..i]), input[i]);
      MoveIntoPlace(a, i);
    }
    assert input[..a.Length] == input;
  }

  /** The array built by `files.map(...)`. */
  method StatRecords(entries: seq<DirEntry>, extname: string -> string) returns (a: array<FileInfo>)
    ensures fresh(a) && a[..] == DescribeAll(entries, extname)
  {
    a := new FileInfo[|entries|](i requires 0 <= i < |entries| => Describe(entries[i], extname));
  }

  /** The `GET /files` handler, given the parsed query values and what `readdir` and
      `statSync` report (`None` when the directory cannot be read). */
  method ListFiles(pageParam: JsNumber, limitParam: JsNumber, dir: Option<seq<DirEntry>>,
                   extname: string -> string)
    returns (resp: ListResponse)
    ensures dir.None? ==> resp == ListResponse(500, ListError(ReadErrorMessage))
    ensures dir.Some? ==>
      var page, limit := OrDefault(pageParam, DefaultPage), OrDefault(limitParam, DefaultLimit);
      var total := |dir.value|;
      resp == ListResponse(200, ListPage(Page(SortByDate(DescribeAll(dir.value, extname)), page, limit),
                                         page, CeilDiv(total, limit), total))
  {
    var page := OrDefault(pageParam, DefaultPage);
    var limit := OrDefault(limitParam, DefaultLimit);
    match dir
    case None =>
      resp := ListResponse(500, ListError(ReadErrorMessage));
    case Some(entries) =>
      var fileStats := StatRecords(entries, extname);
      SortByUploadDate(fileStats);
      var totalFiles := fileStats.Length;
      var totalPages := CeilDiv(totalFiles, limit);
      var startIndex := (page - 1) * limit;
      var endIndex := startIndex + limit;
      resp := ListResponse(200, ListPage(JsSlice(fileStats[..], startIndex, endIndex), page, totalPages, totalFiles));
  }
}
