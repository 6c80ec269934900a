/** The files of a build, inline up to a limit and uploaded beyond it: `packBuildFiles` (src/aiws_ext.ts). */
module PackBuild {
  import opened Wrappers
  import opened JsText
  import opened Sorting
  import opened Base64

  const MAX_INLINE_BYTES := 4 * 1024 * 1024

  datatype File = File(name: Text, bytes: Bytes)

  datatype BuildFile = ByRef(name: Text, objId: Text) | Inline(name: Text, base64: Text)

  datatype PackError = NoUploader | UploadFailed

  /** `upload(name, bytes)`; None is its failure. */
  type Uploader = (Text, Bytes) -> Option<Text>

  // ---- sums

  function Sum<T>(weight: T -> nat, items: seq<T>): nat {
    if items == [] then 0 else weight(items[0]) + Sum(weight, items[1..])
  }

  function Size(f: File): nat { |f.bytes| }

  function Total(files: seq<File>): nat { Sum(Size, files) }

  lemma {:induction false} SumAppend<T>(weight: T -> nat, a: seq<T>, b: seq<T>)
    ensures Sum(weight, a + b) == Sum(weight, a) + Sum(weight, b)
  {
    if a == [] {
      assert a + b == b;
    } else {
      SumAppend(weight, a[1..], b);
      assert (a + b)[1..] == a[1..] + b;
    }
  }

  lemma SumOne<T>(weight: T -> nat, x: T)
    ensures Sum(weight, [x]) == weight(x)
  {
    assert [x][1..] == [];
  }

  lemma {:induction false} SumWithout<T>(weight: T -> nat, items: seq<T>, x: T)
    requires x in items
    ensures Sum(weight, items) == weight(x) + Sum(weight, Without(items, x))
  {
    if items[0] != x {
      SumWithout(weight, items[1..], x);
      assert Without(items, x)[1..] == Without(items[1..], x);
    }
  }

  lemma {:induction false} SumPermutes<T>(weight: T -> nat, a: seq<T>, b: seq<T>)
    requires multiset(a) == multiset(b)
    ensures Sum(weight, a) == Sum(weight, b)
    decreases |a|
  {
    assert |multiset(a)| == |multiset(b)|;
    if a != [] {
      assert a == [a[0]] + a[1..];
      assert a[0] in multiset(b);
      SumWithout(weight, b, a[0]);
      SumPermutes(weight, a[1..], Without(b, a[0]));
    }
  }

  // ---- what is uploaded

  /** The comparator `b.bytes.length - a.bytes.length` is negative. */
  function Larger(a: File, b: File): bool { |a.bytes| > |b.bytes| }

  function BySize(files: seq<File>): seq<File> { Sort(Larger, files) }

  lemma BySizeSorted(files: seq<File>)
    ensures multiset(BySize(files)) == multiset(files)
    ensures forall i, j | 0 <= i < j < |BySize(files)| :: |BySize(files)[i].bytes| >= |BySize(files)[j].bytes|
  {
    SortPermutes(Larger, files);
    SortSorts(Larger, files);
  }

  predicate Descending(s: seq<File>) { forall i, j | 0 <= i < j < |s| :: |s[i].bytes| >= |s[j].bytes| }

  /** No choice of as many files weighs more than the front of the list sorted by size. */
  lemma {:induction false} FrontIsLargest(sorted: seq<File>, choice: seq<File>)
    requires Descending(sorted) && multiset(choice) <= multiset(sorted)
    ensures |choice| <= |sorted| && Total(choice) <= Total(sorted[..|choice|])
    decreases |sorted|
  {
    SubsetSize(choice, sorted);
    if choice != [] {
      var head, rest := sorted[0], sorted[1..];
      var x := if head in choice then head else choice[0];
      var others := Without(choice, x);
      SumWithout(Size, choice, x);
      OthersFit(sorted, choice, x);
      DescendingRest(sorted, x);
      FrontIsLargest(rest, others);
      assert sorted[..|choice|][1..] == rest[..|others|];
    }
  }

  lemma OthersFit(sorted: seq<File>, choice: seq<File>, x: File)
    requires sorted != [] && multiset(choice) <= multiset(sorted) && x in choice
    requires x == sorted[0] || sorted[0] !in choice
    ensures x in sorted && multiset(Without(choice, x)) <= multiset(sorted[1..])
  {
    assert x in multiset(choice) && x in multiset(sorted);
    assert sorted == [sorted[0]] + sorted[1..];
    assert multiset(sorted) == multiset{sorted[0]} + multiset(sorted[1..]);
    var c := multiset(choice);
    assert sorted[0] !in choice ==> c[sorted[0]] == 0;
    forall f
      ensures (c - multiset{x})[f] <= multiset(sorted[1..])[f]
    {
      assert c[f] <= multiset(sorted)[f];
    }
  }

  lemma DescendingRest(sorted: seq<File>, x: File)
    requires Descending(sorted) && x in sorted
    ensures Descending(sorted[1..]) && |x.bytes| <= |sorted[0].bytes|
  {}

  lemma {:induction false} SubsetSize(a: seq<File>, b: seq<File>)
    requires multiset(a) <= multiset(b)
    ensures |a| <= |b|
    decreases |a|
  {
    if a != [] {
      assert a == [a[0]] + a[1..];
      assert a[0] in multiset(a) && a[0] in multiset(b);
      SubsetSize(a[1..], Without(b, a[0]));
    }
  }

  /** The shortest front of the sorted list that brings the total down to the limit. */
  ghost predicate ShortestFront(sorted: seq<File>, n: nat) {
    && n <= |sorted|
    && Total(sorted) - Total(sorted[..n]) <= MAX_INLINE_BYTES
    && forall m | 0 <= m < n :: Total(sorted) - Total(sorted[..m]) > MAX_INLINE_BYTES
  }

  /** Largest first uploads the fewest files: any choice that brings the total down to the limit is at least as long. */
  lemma FewestUploads(files: seq<File>, n: nat, choice: seq<File>)
    requires ShortestFront(BySize(files), n)
    requires multiset(choice) <= multiset(files) && Total(files) - Total(choice) <= MAX_INLINE_BYTES
    ensures n <= |choice|
  {
    var sorted := BySize(files);
    BySizeSorted(files);
    SumPermutes(Size, files, sorted);
    FrontIsLargest(sorted, choice);
  }

  // ---- the entries

  function Entry(f: File, uploaded: map<Text, Text>): BuildFile {
    if f.name in uploaded && uploaded[f.name] != [] then ByRef(f.name, uploaded[f.name])
        else Inline(f.name, ToBase64(f.bytes))
  }

  function Entries(files: seq<File>, uploaded: map<Text, Text>): (r: seq<BuildFile>)
    ensures |r| == |files|
  {
    seq(|files|, i requires 0 <= i < |files| => Entry(files[i], uploaded))
  }

  /** The bytes an entry carries. */
  function Carried(e: BuildFile): nat { if e.Inline? then |FromBase64(e.base64)| else 0 }

  function InlineBytes(entries: seq<BuildFile>): nat { Sum(Carried, entries) }

  ghost predicate DistinctNames(files: seq<File>) { DistinctBy((f: File) => f.name, files) }

  function ByName(a: BuildFile, b: BuildFile): bool { Less(a.name, b.name) }

  function Names(files: seq<File>): set<Text> { set i | 0 <= i < |files| :: files[i].name }

  /** The files whose names were uploaded, when every upload gave an id, carry nothing inline. */
  function Kept(uploaded: map<Text, Text>): File -> nat {
    (f: File) => if f.name in uploaded && uploaded[f.name] != [] then 0 else |f.bytes|
  }

  lemma {:induction false} InlineIsKept(files: seq<File>, uploaded: map<Text, Text>)
    ensures InlineBytes(Entries(files, uploaded)) == Sum(Kept(uploaded), files)
  {
    hide FromBase64, ToBase64;
    if files != [] {
      InlineIsKept(files[1..], uploaded);
      assert Entries(files, uploaded)[1..] == Entries(files[1..], uploaded);
      Base64RoundTrip(files[0].bytes);
    }
  }

  lemma {:induction false} NothingKept(weight: File -> nat, files: seq<File>)
    requires forall i | 0 <= i < |files| :: weight(files[i]) == 0
    ensures Sum(weight, files) == 0
  {
    if files != [] {
      NothingKept(weight, files[1..]);
    }
  }

  lemma {:induction false} AllKept(weight: File -> nat, files: seq<File>)
    requires forall i | 0 <= i < |files| :: weight(files[i]) == |files[i].bytes|
    ensures Sum(weight, files) == Total(files)
  {
    if files != [] {
      AllKept(weight, files[1..]);
    }
  }

  /** With distinct names and a non-empty id for every upload, exactly what was not uploaded is inline. */
  lemma InlineIsRest(files: seq<File>, n: nat, uploaded: map<Text, Text>)
    requires DistinctNames(files) && n <= |BySize(files)|
    requires uploaded.Keys == Names(BySize(files)[..n]) && [] !in uploaded.Values
    ensures InlineBytes(Entries(files, uploaded)) == Total(BySize(files)) - Total(BySize(files)[..n])
  {
    var sorted := BySize(files);
    BySizeSorted(files);
    DistinctByPermutes((f: File) => f.name, files, sorted);
    InlineInTwo(files, n, uploaded);
    FrontCarriesNothing(sorted, n, uploaded);
    RestCarriesAll(sorted, n, uploaded);
  }

  lemma FrontCarriesNothing(sorted: seq<File>, n: nat, uploaded: map<Text, Text>)
    requires n <= |sorted| && uploaded.Keys == Names(sorted[..n]) && [] !in uploaded.Values
    ensures Sum(Kept(uploaded), sorted[..n]) == 0
  {
    forall i | 0 <= i < n
      ensures Kept(uploaded)(sorted[..n][i]) == 0
    {
      assert sorted[..n][i].name in Names(sorted[..n]);
      assert uploaded[sorted[i].name] in uploaded.Values;
    }
    NothingKept(Kept(uploaded), sorted[..n]);
  }

  lemma RestCarriesAll(sorted: seq<File>, n: nat, uploaded: map<Text, Text>)
    requires DistinctNames(sorted) && n <= |sorted| && uploaded.Keys == Names(sorted[..n])
    ensures Sum(Kept(uploaded), sorted[n..]) == Total(sorted[n..])
  {
    forall i | 0 <= i < |sorted[n..]|
      ensures Kept(uploaded)(sorted[n..][i]) == |sorted[n..][i].bytes|
    {
      assert sorted[n..][i] == sorted[n + i];
    }
    AllKept(Kept(uploaded), sorted[n..]);
  }

  lemma {:induction false} SumAtMost<T>(weight: T -> nat, other: T -> nat, items: seq<T>)
    requires forall x | x in items :: weight(x) <= other(x)
    ensures Sum(weight, items) <= Sum(other, items)
  {
    if items != [] {
      SumAtMost(weight, other, items[1..]);
    }
  }

  lemma SumHolds<T>(weight: T -> nat, items: seq<T>, x: T)
    requires x in items
    ensures weight(x) <= Sum(weight, items)
  {
    SumWithout(weight, items, x);
  }

  /** What is inline, front and rest of the list sorted by size apart. */
  lemma InlineInTwo(files: seq<File>, n: nat, uploaded: map<Text, Text>)
    requires n <= |BySize(files)|
    ensures var sorted := BySize(files);
            && InlineBytes(Entries(files, uploaded))
                   == Sum(Kept(uploaded), sorted[..n]) + Sum(Kept(uploaded), sorted[n..])
            && Total(sorted) == Total(sorted[..n]) + Total(sorted[n..])
  {
    var sorted := BySize(files);
    BySizeSorted(files);
    InlineIsKept(files, uploaded);
    SumPermutes(Kept(uploaded), files, sorted);
    assert sorted == sorted[..n] + sorted[n..];
    SumAppend(Kept(uploaded), sorted[..n], sorted[n..]);
    SumAppend(Size, sorted[..n], sorted[n..]);
  }

  /** When every upload gave an id the limit holds, whatever the names are. */
  lemma WithinLimit(files: seq<File>, n: nat, uploaded: map<Text, Text>)
    requires ShortestFront(BySize(files), n)
    requires uploaded.Keys == Names(BySize(files)[..n]) && [] !in uploaded.Values
    ensures InlineBytes(Entries(files, uploaded)) <= MAX_INLINE_BYTES
  {
    var sorted := BySize(files);
    InlineInTwo(files, n, uploaded);
    FrontCarriesNothing(sorted, n, uploaded);
    SumAtMost(Kept(uploaded), Size, sorted[n..]);
  }

  /**
   * A file of the shortest front is at least as large as the front's last one, so sending any one of them inline
   * after all breaks the limit.
   */
  lemma OneEmptyBreaks(files: seq<File>, n: nat, uploaded: map<Text, Text>, i: nat)
    requires DistinctNames(files) && ShortestFront(BySize(files), n) && uploaded.Keys == Names(BySize(files)[..n])
    requires i < n && Kept(uploaded)(BySize(files)[i]) == |BySize(files)[i].bytes|
    ensures InlineBytes(Entries(files, uploaded)) > MAX_INLINE_BYTES
  {
    hide Sort, Sum, Entries, InlineBytes, Names, ToBase64, FromBase64, Carried;
    var sorted := BySize(files);
    BySizeSorted(files);
    DistinctByPermutes((f: File) => f.name, files, sorted);
    InlineInTwo(files, n, uploaded);
    RestCarriesAll(sorted, n, uploaded);
    assert sorted[..n][i] == sorted[i];
    SumHolds(Kept(uploaded), sorted[..n], sorted[i]);
    TotalNext(sorted, n - 1);
    assert |sorted[n - 1].bytes| <= |sorted[i].bytes|;
  }

  /** With distinct names the limit holds exactly when no upload gave an empty id. */
  lemma WithinLimitIff(files: seq<File>, n: nat, uploaded: map<Text, Text>)
    requires DistinctNames(files) && ShortestFront(BySize(files), n) && uploaded.Keys == Names(BySize(files)[..n])
    ensures InlineBytes(Entries(files, uploaded)) <= MAX_INLINE_BYTES <==> [] !in uploaded.Values
  {
    if [] in uploaded.Values {
      var name :| name in uploaded && uploaded[name] == [];
      var i: nat :| i < |BySize(files)[..n]| && BySize(files)[..n][i].name == name;
      OneEmptyBreaks(files, n, uploaded, i);
    } else {
      WithinLimit(files, n, uploaded);
    }
  }

  /** When every id is empty, everything is sent inline. */
  lemma EmptyIdsSendAll(files: seq<File>, uploaded: map<Text, Text>)
    requires forall name | name in uploaded :: uploaded[name] == []
    ensures InlineBytes(Entries(files, uploaded)) == Total(files)
  {
    InlineIsKept(files, uploaded);
    AllKept(Kept(uploaded), files);
  }

  lemma {:induction false} RefsCarryNothing(byRef: seq<BuildFile>)
    requires forall i | 0 <= i < |byRef| :: byRef[i].ByRef?
    ensures InlineBytes(byRef) == 0
  {
    if byRef != [] {
      RefsCarryNothing(byRef[1..]);
    }
  }

  lemma InlineOfPacked(byRef: seq<BuildFile>, entries: seq<BuildFile>, packed: seq<BuildFile>)
    requires forall i | 0 <= i < |byRef| :: byRef[i].ByRef?
    requires multiset(packed) == multiset(byRef + entries)
    ensures InlineBytes(packed) == InlineBytes(entries)
  {
    SumPermutes(Carried, packed, byRef + entries);
    SumAppend(Carried, byRef, entries);
    RefsCarryNothing(byRef);
  }

  // ---- packBuildFiles

  lemma PackedMeans(files: seq<File>, n: nat, ids: map<Text, Text>, byRef: seq<BuildFile>, out: seq<BuildFile>)
    requires forall i | 0 <= i < |byRef| :: byRef[i].ByRef?
    requires ShortestFront(BySize(files), n)
    requires ids.Keys == Names(BySize(files)[..n]) && out == byRef + Entries(files, ids)
    ensures multiset(Sort(ByName, out)) == multiset(byRef) + multiset(Entries(files, ids))
    ensures Sorted(ByName, Sort(ByName, out))
    ensures [] !in ids.Values ==> InlineBytes(Sort(ByName, out)) <= MAX_INLINE_BYTES
    ensures DistinctNames(files) ==> (InlineBytes(Sort(ByName, out)) <= MAX_INLINE_BYTES <==> [] !in ids.Values)
    ensures (forall name | name in ids :: ids[name] == []) ==> InlineBytes(Sort(ByName, out)) == Total(files)
  {
    hide Sort, Sorted, Sum, Names, DistinctNames, InlineBytes, ShortestFront, Entries;
    SortPermutes(ByName, out);
    SortedByName(out);
    InlineOfPacked(byRef, Entries(files, ids), Sort(ByName, out));
    if [] !in ids.Values {
      WithinLimit(files, n, ids);
    }
    if DistinctNames(files) {
      WithinLimitIff(files, n, ids);
    }
    if forall name | name in ids :: ids[name] == [] {
      EmptyIdsSendAll(files, ids);
    }
  }

  /** The upload of this file is needed, as the largest that is left while the total is beyond the limit, and fails. */
  ghost predicate Blocked(sorted: seq<File>, upload: Uploader, k: nat) {
    && k < |sorted| && Total(sorted) - Total(sorted[..k]) > MAX_INLINE_BYTES
    && upload(sorted[k].name, sorted[k].bytes).None?
  }

  ghost predicate Blocks(sorted: seq<File>, upload: Uploader, n: nat) {
    exists k: nat :: k < n && Blocked(sorted, upload, k)
  }

  /** The ids are the uploads' answers; of files with one name, the last one's. */
  ghost predicate AsUploaded(front: seq<File>, upload: Uploader, uploaded: map<Text, Text>) {
    forall i | 0 <= i < |front| ::
      && upload(front[i].name, front[i].bytes).Some? && front[i].name in uploaded
      && (front[i].name !in Names(front[i + 1..]) ==>
            upload(front[i].name, front[i].bytes) == Some(uploaded[front[i].name]))
  }

  /** The entries with this name, in order. */
  function OfName(name: Text, entries: seq<BuildFile>): seq<BuildFile> {
    Select((e: BuildFile) => if e.name == name then Some(e) else None, entries)
  }

  lemma OfNameKept(name: Text, out: seq<BuildFile>)
    ensures OfName(name, Sort(ByName, out)) == OfName(name, out)
  {
    LessAsymmetric(name, name);
    SortStable(ByName, (e: BuildFile) => if e.name == name then Some(e) else None, out);
  }

  lemma BlocksNext(sorted: seq<File>, upload: Uploader, n: nat)
    requires !Blocks(sorted, upload, n)
    ensures Blocks(sorted, upload, n + 1) <==> Blocked(sorted, upload, n)
  {
    hide Blocked;
  }

  lemma NothingBlocks(sorted: seq<File>, upload: Uploader, n: nat)
    requires !Blocks(sorted, upload, n) && n <= |sorted| && Total(sorted) - Total(sorted[..n]) <= MAX_INLINE_BYTES
    ensures forall k :: !Blocked(sorted, upload, k)
  {
    forall k: nat
      ensures !Blocked(sorted, upload, k)
    {
      if n <= k < |sorted| {
        SumAppend(Size, sorted[..n], sorted[n..k]);
        assert sorted[..k] == sorted[..n] + sorted[n..k];
      }
    }
  }

  lemma {:induction false} LastNamed(front: seq<File>, name: Text) returns (i: nat)
    requires name in Names(front)
    ensures i < |front| && front[i].name == name && name !in Names(front[i + 1..])
    decreases |front|
  {
    var n := |front| - 1;
    if front[n].name == name {
      i := n;
      assert front[n + 1..] == [];
    } else {
      assert front == front[..n] + [front[n]];
      NamesNext(front[..n], front[n]);
      i := LastNamed(front[..n], name);
      assert front[i + 1..] == front[..n][i + 1..] + [front[n]];
      NamesNext(front[..n][i + 1..], front[n]);
    }
  }

  lemma EmptyIds(files: seq<File>, n: nat, upload: Uploader, ids: map<Text, Text>)
    requires n <= |BySize(files)| && AsUploaded(BySize(files)[..n], upload, ids)
    requires ids.Keys == Names(BySize(files)[..n])
    requires forall f | f in files :: upload(f.name, f.bytes) == Some([])
    ensures forall name | name in ids :: ids[name] == []
  {
    var sorted := BySize(files);
    BySizeSorted(files);
    forall name | name in ids
      ensures ids[name] == []
    {
      var i := LastNamed(sorted[..n], name);
      assert sorted[i] in multiset(sorted) && sorted[i] in multiset(files);
    }
  }

  lemma UploadedNext(front: seq<File>, upload: Uploader, ids: map<Text, Text>, f: File, id: Text)
    requires AsUploaded(front, upload, ids) && upload(f.name, f.bytes) == Some(id)
    ensures AsUploaded(front + [f], upload, ids[f.name := id])
  {
    var all := front + [f];
    forall i | 0 <= i < |front|
      ensures f.name in Names(all[i + 1..])
      ensures front[i].name !in Names(all[i + 1..]) ==> front[i].name !in Names(front[i + 1..])
    {
      assert all[i + 1..] == front[i + 1..] + [f];
      NamesNext(front[i + 1..], f);
    }
    assert forall i | 0 <= i < |front| :: all[i] == front[i];
    hide Names;
  }

  /**
   * `uploads` says how many of the files sorted by size were uploaded, `uploaded` the ids they got. Without an
   * uploader a total beyond the limit is refused; otherwise the result holds every file once, sorted by name, and
   * the uploads are the shortest front that helps. With distinct names the limit is kept exactly when no upload gave
   * an empty id: such a file is sent inline although it was taken off the total.
   */
  method PackBuildFiles(files: seq<File>, upload: Option<Uploader>, byRef: seq<BuildFile>)
    returns (r: Result<seq<BuildFile>, PackError>, ghost uploads: nat, ghost uploaded: map<Text, Text>)
    requires forall i | 0 <= i < |byRef| :: byRef[i].ByRef?
    ensures r == Err(NoUploader) <==> Total(files) > MAX_INLINE_BYTES && upload.None?
    ensures r == Err(UploadFailed) <==> upload.Some? && exists k :: Blocked(BySize(files), upload.value, k)
    ensures r.Ok? ==>
              && ShortestFront(BySize(files), uploads)
              && uploaded.Keys == Names(BySize(files)[..uploads])
              && (uploads > 0 ==> upload.Some? && AsUploaded(BySize(files)[..uploads], upload.value, uploaded))
              && (forall name :: OfName(name, r.value) == OfName(name, byRef + Entries(files, uploaded)))
              && multiset(r.value) == multiset(byRef) + multiset(Entries(files, uploaded))
              && Sorted(ByName, r.value)
    ensures r.Ok? && [] !in uploaded.Values ==> InlineBytes(r.value) <= MAX_INLINE_BYTES
    ensures r.Ok? && DistinctNames(files) ==> (InlineBytes(r.value) <= MAX_INLINE_BYTES <==> [] !in uploaded.Values)
    ensures r.Ok? && (upload.Some? ==> forall f | f in files :: upload.value(f.name, f.bytes) == Some([])) ==>
              InlineBytes(r.value) == Total(files)
  {
    hide Sort, Sorted, FromBase64, ToBase64, Sum, Less, Names, DistinctNames, Carried, InlineBytes;
    var sorted := BySize(files);
    var total := Total(files);
    BySizeSorted(files);
    SumPermutes(Size, files, sorted);
    uploads, uploaded := 0, map[];
    var ids: map<Text, Text> := map[];
    TotalNothing(sorted);
    NamesNothing(sorted);
    if total > MAX_INLINE_BYTES {
      if upload.None? {
        return Err(NoUploader), uploads, uploaded;
      }
      var i := 0;
      while i < |sorted| && total > MAX_INLINE_BYTES
        invariant i <= |sorted| && total == Total(sorted) - Total(sorted[..i])
        invariant forall m | 0 <= m < i :: Total(sorted) - Total(sorted[..m]) > MAX_INLINE_BYTES
        invariant ids.Keys == Names(sorted[..i])
        invariant AsUploaded(sorted[..i], upload.value, ids) && !Blocks(sorted, upload.value, i)
      {
        var f := sorted[i];
        var id := upload.value(f.name, f.bytes);
        BlocksNext(sorted, upload.value, i);
        if id.None? {
          return Err(UploadFailed), uploads, uploaded;
        }
        UploadedNext(sorted[..i], upload.value, ids, f, id.value);
        assert sorted[..i + 1] == sorted[..i] + [f];
        TotalNext(sorted, i);
        NamesNext(sorted[..i], f);
        ids := ids[f.name := id.value];
        total := total - |f.bytes|;
        i := i + 1;
      }
      assert sorted[..|sorted|] == sorted;
      uploads, uploaded := i, ids;
      if upload.Some? {
        NothingBlocks(sorted, upload.value, i);
      }
    }
    var out := byRef;
    for k := 0 to |files|
      invariant out == byRef + Entries(files[..k], ids)
    {
      var f := files[k];
      var entry := if f.name in ids && ids[f.name] != [] then ByRef(f.name, ids[f.name])
          else Inline(f.name, ToBase64(f.bytes));
      assert entry == Entry(f, ids);
      EntriesNext(files, k, ids);
      out := out + [entry];
    }
    assert files[..|files|] == files;
    assert out == byRef + Entries(files, ids);
    PackedMeans(files, uploads, ids, byRef, out);
    if uploads > 0 && forall f | f in files :: upload.value(f.name, f.bytes) == Some([]) {
      EmptyIds(files, uploads, upload.value, ids);
    }
    var packed := Sort(ByName, out);
    forall name
      ensures OfName(name, packed) == OfName(name, out)
    {
      OfNameKept(name, out);
    }
    return Ok(packed), uploads, uploaded;
  }

  lemma NamesNext(files: seq<File>, f: File)
    ensures Names(files + [f]) == Names(files) + {f.name}
  {
    var all := files + [f];
    assert forall i | 0 <= i < |files| :: all[i] == files[i];
    assert all[|files|] == f;
    forall name
      ensures name in Names(all) <==> name in Names(files) || name == f.name
    {
      if name in Names(files) {
        var i :| 0 <= i < |files| && files[i].name == name;
        assert all[i].name == name;
      }
    }
  }

  lemma NamesNothing(sorted: seq<File>)
    ensures Names(sorted[..0]) == {}
  {}

  lemma EntriesNext(files: seq<File>, k: nat, ids: map<Text, Text>)
    requires k < |files|
    ensures Entries(files[..k + 1], ids) == Entries(files[..k], ids) + [Entry(files[k], ids)]
  {}

  lemma TotalNothing(sorted: seq<File>)
    ensures Total(sorted[..0]) == 0
  {
    assert sorted[..0] == [];
  }

  lemma TotalNext(sorted: seq<File>, i: nat)
    requires i < |sorted|
    ensures Total(sorted[..i + 1]) == Total(sorted[..i]) + |sorted[i].bytes|
  {
    assert sorted[..i + 1] == sorted[..i] + [sorted[i]];
    SumAppend(Size, sorted[..i], [sorted[i]]);
    SumOne(Size, sorted[i]);
  }

  lemma SortedByName(out: seq<BuildFile>)
    ensures Sorted(ByName, Sort(ByName, out))
  {
    forall x: BuildFile, y: BuildFile
      ensures ByName(x, y) ==> !ByName(y, x)
    {
      LessAsymmetric(x.name, y.name);
    }
    forall x: BuildFile, y: BuildFile, z: BuildFile
      ensures !ByName(x, y) && !ByName(y, z) ==> !ByName(x, z)
    {
      if !ByName(x, y) && !ByName(y, z) {
        LessNegTransitive(x.name, y.name, z.name);
      }
    }
    SortSorts(ByName, out);
  }
}
