/** `update_index`: scan the article pages, build one entry per page, sort
    the entries by the date token of their file name, newest first, and keep
    the first ten. The directory listing and the HTML parsing are abstracted:
    each scanned page is its file name plus the `<h1>` text and the
    description meta content, either of which may be missing. */
module Index {
  import opened Wrappers
  import opened Strings

  const IndexFile: string := "index.html"

  /** How many entries the index page shows. */
  const MaxEntries: nat := 10

  datatype ScannedFile = ScannedFile(name: string, heading: Option<string>, description: Option<string>)

  datatype Entry = Entry(title: string, file: string, date: string, summary: string)

  /** The exceptions that end `update_index`: `soup.find('h1')` found nothing,
      or the description meta is missing. */
  datatype IndexError = MissingHeading(file: string) | MissingDescription(file: string)

  /** Every scanned page except the index itself is listed. */
  predicate Eligible(f: ScannedFile)
  {
    f.name != IndexFile
  }

  /** A page carries both fields the index reads. */
  predicate Complete(f: ScannedFile)
  {
    f.heading.Some? && f.description.Some?
  }

  /** `html_file.stem.split('-')[-1]` */
  function DateToken(name: string): (r: string)
    ensures '-' !in r
  {
    Last(Split(Stem(name), '-'))
  }

  /** The entry of one page, or the error its missing field raises (the
      heading is read first). */
  function ToEntry(f: ScannedFile): (r: Result<Entry, IndexError>)
    ensures r.Success? <==> Complete(f)
    ensures r.Success? ==>
              && r.value.file == f.name && r.value.date == DateToken(f.name)
              && f.heading == Some(r.value.title) && f.description == Some(r.value.summary)
    ensures r.Failure? ==> r.error == if f.heading.None? then MissingHeading(f.name) else MissingDescription(f.name)
  {
    match f.heading
    case None => Failure(MissingHeading(f.name))
    case Some(title) =>
      match f.description
      case None => Failure(MissingDescription(f.name))
      case Some(summary) => Success(Entry(title, f.name, DateToken(f.name), summary))
  }

  /** The `articles` list after the scanning loop has seen `files`, or the
      first error it raised. */
  function Collect(files: seq<ScannedFile>): (r: Result<seq<Entry>, IndexError>)
    ensures r.Success? ==> |r.value| <= |files|
  {
    if |files| == 0 then Success([])
    else
      match Collect(files[..|files| - 1])
      case Failure(e) => Failure(e)
      case Success(articles) =>
        var f := files[|files| - 1];
        if !Eligible(f) then Success(articles)
        else
          match ToEntry(f)
          case Failure(e) => Failure(e)
          case Success(entry) => Success(articles + [entry])
  }

  /** The scanned pages other than the index, in scanning order. */
  function Eligibles(files: seq<ScannedFile>): (r: seq<ScannedFile>)
    ensures |r| <= |files|
    ensures forall g :: g in r ==> g in files && Eligible(g)
    ensures forall f :: f in files && Eligible(f) ==> f in r
  {
    if |files| == 0 then []
    else
      var init, f := files[..|files| - 1], files[|files| - 1];
      assert files == init + [f];
      if Eligible(f) then Eligibles(init) + [f] else Eligibles(init)
  }

  /** Scanning two runs of pages one after the other keeps the eligible pages
      of each run, the first run's before the second's. */
  lemma {:induction false} EligiblesAppend(a: seq<ScannedFile>, b: seq<ScannedFile>)
    ensures Eligibles(a + b) == Eligibles(a) + Eligibles(b)
    decreases |b|
  {
    if |b| == 0 {
      assert a + b == a;
    } else {
      var init := b[..|b| - 1];
      assert a + b == (a + init) + [b[|b| - 1]];
      assert (a + b)[..|a + b| - 1] == a + init;
      EligiblesAppend(a, init);
    }
  }

  /** One page is kept exactly when it is not the index. */
  lemma EligiblesOfOne(f: ScannedFile)
    ensures Eligibles([f]) == if Eligible(f) then [f] else []
  {
    assert [f][..0] == [];
  }

  /** Entries sorted by date token, newest first: no entry is strictly older
      than one after it. */
  predicate SortedByDate(s: seq<Entry>)
  {
    forall i, j :: 0 <= i < j < |s| ==> !Less(s[i].date, s[j].date)
  }

  /** Insert `e` after every entry strictly newer than it, and before the
      rest, so that among equal dates the earlier-scanned entry stays first. */
  function Insert(e: Entry, s: seq<Entry>): (r: seq<Entry>)
    ensures |r| == |s| + 1
  {
    if |s| == 0 || !Less(e.date, s[0].date) then [e] + s
    else [s[0]] + Insert(e, s[1..])
  }

  /** `articles.sort(key=lambda x: x['date'], reverse=True)`: a stable sort,
      newest date first. */
  function SortByDate(s: seq<Entry>): (r: seq<Entry>)
    ensures |r| == |s|
  {
    if |s| == 0 then [] else Insert(s[0], SortByDate(s[1..]))
  }

  /** `articles[:10]` */
  function Newest(s: seq<Entry>): (r: seq<Entry>)
    ensures |r| == if |s| <= MaxEntries then |s| else MaxEntries
    ensures r == s[..|r|]
  {
    if |s| <= MaxEntries then s else s[..MaxEntries]
  }

  /** What `update_index` hands to `write_index_page`, or the error that ends
      the run. */
  function BuildIndex(files: seq<ScannedFile>): (r: Result<seq<Entry>, IndexError>)
    ensures r.Success? <==> Collect(files).Success?
    ensures r.Failure? ==> r.error == Collect(files).error
    ensures r.Success? ==> |r.value| <= MaxEntries
  {
    match Collect(files)
    case Failure(e) => Failure(e)
    case Success(articles) => Success(Newest(SortByDate(articles)))
  }

  /** Once the scan has failed on a prefix, later pages change nothing. */
  lemma {:induction false} CollectFailureSticks(files: seq<ScannedFile>, k: nat)
    requires k <= |files|
    requires Collect(files[..k]).Failure?
    ensures Collect(files) == Collect(files[..k])
    decreases |files|
  {
    if k < |files| {
      var init := files[..|files| - 1];
      assert init[..k] == files[..k];
      CollectFailureSticks(init, k);
    } else {
      assert files[..k] == files;
    }
  }

  /** `update_index`: the scanning loop appends one entry per eligible page and
      raises on the first page that lacks a field; the list is then sorted and
      cut to ten. */
  method UpdateIndex(files: seq<ScannedFile>) returns (r: Result<seq<Entry>, IndexError>)
    ensures r == BuildIndex(files)
  {
    var articles: seq<Entry> := [];
    var i := 0;
    while i < |files|
      invariant 0 <= i <= |files|
      invariant Collect(files[..i]) == Success(articles)
    {
      var f := files[i];
      assert files[..i + 1][..i] == files[..i];
      if f.name != IndexFile {
        if f.heading.None? {
          CollectFailureSticks(files, i + 1);
          return Failure(MissingHeading(f.name));
        }
        if f.description.None? {
          CollectFailureSticks(files, i + 1);
          return Failure(MissingDescription(f.name));
        }
        articles := articles + [Entry(f.heading.value, f.name, DateToken(f.name), f.description.value)];
      }
      i := i + 1;
    }
    assert files[..i] == files;
    articles := SortByDate(articles);
    r := Success(if |articles| <= MaxEntries then articles else articles[..MaxEntries]);
  }

  // ---------------------------------------------------------------------------
  // The sort

  lemma {:induction false} InsertPermutes(e: Entry, s: seq<Entry>)
    ensures multiset(Insert(e, s)) == multiset(s) + multiset{e}
    decreases |s|
  {
    if |s| > 0 && Less(e.date, s[0].date) {
      InsertPermutes(e, s[1..]);
      assert s == [s[0]] + s[1..];
    }
  }

  lemma {:induction false} InsertKeepsSorted(e: Entry, s: seq<Entry>)
    requires SortedByDate(s)
    ensures SortedByDate(Insert(e, s))
    decreases |s|
  {
    if |s| == 0 {
    } else if !Less(e.date, s[0].date) {
      forall j | 0 <= j < |s|
        ensures !Less(e.date, s[j].date)
      {
        if j > 0 {
          NotLessTransitive(e.date, s[0].date, s[j].date);
        }
      }
    } else {
      var t := Insert(e, s[1..]);
      InsertKeepsSorted(e, s[1..]);
      InsertPermutes(e, s[1..]);
      LessAsymmetric(e.date, s[0].date);
      forall j | 0 <= j < |t|
        ensures !Less(s[0].date, t[j].date)
      {
        assert t[j] in multiset(t);
        if t[j] != e {
          assert t[j] in multiset(s[1..]);
          var k :| 0 <= k < |s[1..]| && s[1..][k] == t[j];
        }
      }
    }
  }

  lemma {:induction false} SortPermutes(s: seq<Entry>)
    ensures multiset(SortByDate(s)) == multiset(s)
    decreases |s|
  {
    if |s| > 0 {
      var rest := SortByDate(s[1..]);
      SortPermutes(s[1..]);
      InsertPermutes(s[0], rest);
      MultisetOfCons(s);
    }
  }

  lemma MultisetOfCons<T>(s: seq<T>)
    requires |s| > 0
    ensures multiset(s) == multiset(s[1..]) + multiset{s[0]}
  {
    assert s == [s[0]] + s[1..];
  }

  lemma {:induction false} SortSorts(s: seq<Entry>)
    ensures SortedByDate(SortByDate(s))
    decreases |s|
  {
    if |s| > 0 {
      SortSorts(s[1..]);
      InsertKeepsSorted(s[0], SortByDate(s[1..]));
    }
  }

  /** The entries dated `d`, in order. */
  function WithDate(s: seq<Entry>, d: string): seq<Entry>
  {
    if |s| == 0 then []
    else (if s[0].date == d then [s[0]] else []) + WithDate(s[1..], d)
  }

  lemma {:induction false} InsertWithDate(e: Entry, s: seq<Entry>, d: string)
    ensures WithDate(Insert(e, s), d) == (if e.date == d then [e] else []) + WithDate(s, d)
    decreases |s|
  {
    if |s| > 0 && Less(e.date, s[0].date) {
      var t := Insert(e, s[1..]);
      InsertWithDate(e, s[1..], d);
      assert Insert(e, s) == [s[0]] + t;
      assert ([s[0]] + t)[1..] == t;
      assert WithDate(s, d) == (if s[0].date == d then [s[0]] else []) + WithDate(s[1..], d);
      if e.date == d {
        LessIrreflexive(e.date);
      }
    } else {
      assert Insert(e, s) == [e] + s;
      assert ([e] + s)[1..] == s;
    }
  }

  /** The sort is stable: entries with the same date keep their scanning
      order. */
  lemma {:induction false} SortIsStable(s: seq<Entry>, d: string)
    ensures WithDate(SortByDate(s), d) == WithDate(s, d)
    decreases |s|
  {
    if |s| > 0 {
      SortIsStable(s[1..], d);
      InsertWithDate(s[0], SortByDate(s[1..]), d);
    }
  }

  // ---------------------------------------------------------------------------
  // The scan

  /** The scan succeeds exactly when every eligible page is complete, and then
      yields one entry per eligible page, in scanning order. */
  lemma {:induction false} CollectEntries(files: seq<ScannedFile>)
    ensures Collect(files).Success? <==> forall f :: f in files && Eligible(f) ==> Complete(f)
    ensures Collect(files).Success? ==>
      |Collect(files).value| == |Eligibles(files)|
      && forall k :: 0 <= k < |Eligibles(files)| ==> ToEntry(Eligibles(files)[k]) == Success(Collect(files).value[k])
    decreases |files|
  {
    if |files| > 0 {
      var init, f := files[..|files| - 1], files[|files| - 1];
      assert files == init + [f];
      CollectEntries(init);
    }
  }

  /** A failed scan names the first eligible page that lacks a field. */
  lemma {:induction false} CollectFailure(files: seq<ScannedFile>)
    requires Collect(files).Failure?
    ensures exists i :: (
              && 0 <= i < |files| && Eligible(files[i])
              && ToEntry(files[i]) == Failure(Collect(files).error)
              && forall j :: 0 <= j < i && Eligible(files[j]) ==> Complete(files[j]))
    decreases |files|
  {
    var init, f := files[..|files| - 1], files[|files| - 1];
    if Collect(init).Failure? {
      CollectFailure(init);
      var i :| 0 <= i < |init| && Eligible(init[i])
        && ToEntry(init[i]) == Failure(Collect(init).error)
        && forall j :: 0 <= j < i && Eligible(init[j]) ==> Complete(init[j]);
      assert Collect(files) == Collect(init);
      assert files[i] == init[i];
      forall j | 0 <= j < i && Eligible(files[j])
        ensures Complete(files[j])
      {
        assert files[j] == init[j];
      }
    } else {
      CollectEntries(init);
      var i := |files| - 1;
      assert files[i] == f;
      assert Eligible(f) && ToEntry(f).Failure?;
      assert Collect(files) == Failure(ToEntry(f).error);
      forall j | 0 <= j < i && Eligible(files[j])
        ensures Complete(files[j])
      {
        assert files[j] == init[j];
        assert init[j] in init;
      }
    }
  }

  // ---------------------------------------------------------------------------
  // What update_index promises

  /** The run fails exactly when some page other than the index lacks its
      `<h1>` or its description; a page is never skipped. */
  lemma IndexFailsIff(files: seq<ScannedFile>)
    ensures BuildIndex(files).Failure?
        <==> exists i :: 0 <= i < |files| && Eligible(files[i]) && !Complete(files[i])
  {
    CollectEntries(files);
    if BuildIndex(files).Failure? {
      CollectFailure(files);
    }
  }

  /** The error reports the first such page, and which field it lacked. */
  lemma IndexErrorNamesFirstBadPage(files: seq<ScannedFile>)
    requires BuildIndex(files).Failure?
    ensures exists i :: (
              && 0 <= i < |files| && Eligible(files[i]) && !Complete(files[i])
              && BuildIndex(files).error
                 == (if files[i].heading.None? then MissingHeading(files[i].name) else MissingDescription(files[i].name))
              && forall j :: 0 <= j < i && Eligible(files[j]) ==> Complete(files[j]))
  {
    CollectFailure(files);
  }

  /** Ten entries when at least ten pages qualify, otherwise all of them. */
  lemma IndexSize(files: seq<ScannedFile>)
    requires BuildIndex(files).Success?
    ensures |BuildIndex(files).value|
         == if |Eligibles(files)| < MaxEntries then |Eligibles(files)| else MaxEntries
  {
    CollectEntries(files);
    var articles := Collect(files).value;
    SortPermutes(articles);
    assert |multiset(SortByDate(articles))| == |SortByDate(articles)|;
  }

  /** Every listed entry is built from a scanned page other than the index:
      its file name, its date token, its `<h1>` text and its description. */
  lemma IndexEntriesFromPages(files: seq<ScannedFile>)
    requires BuildIndex(files).Success?
    ensures forall e :: e in BuildIndex(files).value ==>
              && e.file != IndexFile && e.date == DateToken(e.file)
              && exists i :: (
                   && 0 <= i < |files| && files[i].name == e.file
                   && files[i].heading == Some(e.title) && files[i].description == Some(e.summary))
  {
    CollectEntries(files);
    var articles := Collect(files).value;
    var sorted := SortByDate(articles);
    SortPermutes(articles);
    forall e | e in BuildIndex(files).value
      ensures e.file != IndexFile && e.date == DateToken(e.file)
      ensures exists i :: (
                && 0 <= i < |files| && files[i].name == e.file
                && files[i].heading == Some(e.title) && files[i].description == Some(e.summary))
    {
      assert e in sorted;
      assert e in multiset(articles);
      var k :| 0 <= k < |articles| && articles[k] == e;
      var g := Eligibles(files)[k];
      assert g in Eligibles(files);
      var i :| 0 <= i < |files| && files[i] == g;
    }
  }

  /** The index never lists the index page itself. */
  lemma IndexOmitsIndexFile(files: seq<ScannedFile>)
    requires BuildIndex(files).Success?
    ensures forall e :: e in BuildIndex(files).value ==> e.file != IndexFile
  {
    IndexEntriesFromPages(files);
  }

  /** Listed entries are newest first. */
  lemma IndexNewestFirst(files: seq<ScannedFile>)
    requires BuildIndex(files).Success?
    ensures SortedByDate(BuildIndex(files).value)
  {
    SortSorts(Collect(files).value);
  }

  /** A prefix of a sorted list holds its newest entries. */
  lemma PrefixOfSortedIsNewest(sorted: seq<Entry>, k: nat)
    requires SortedByDate(sorted) && k <= |sorted|
    ensures multiset(sorted) == multiset(sorted[..k]) + multiset(sorted[k..])
    ensures forall o, x :: (o in multiset(sorted) - multiset(sorted[..k]) && x in sorted[..k])
              ==> !Less(x.date, o.date)
  {
    assert sorted == sorted[..k] + sorted[k..];
    forall o, x | o in multiset(sorted) - multiset(sorted[..k]) && x in sorted[..k]
      ensures !Less(x.date, o.date)
    {
      assert o in multiset(sorted[k..]);
      var j :| 0 <= j < |sorted[k..]| && sorted[k..][j] == o;
      var i :| 0 <= i < k && sorted[..k][i] == x;
      assert sorted[i] == x && sorted[k + j] == o;
    }
  }

  /** The selection is a top ten: the listed entries are some of the scanned
      entries, and no scanned entry left out is strictly newer than any
      listed one. */
  lemma IndexIsTopTen(files: seq<ScannedFile>)
    requires BuildIndex(files).Success?
    ensures multiset(BuildIndex(files).value) <= multiset(Collect(files).value)
    ensures forall o, x ::
              (o in multiset(Collect(files).value) - multiset(BuildIndex(files).value)
               && x in BuildIndex(files).value) ==> !Less(x.date, o.date)
  {
    var articles := Collect(files).value;
    var sorted := SortByDate(articles);
    var listed := BuildIndex(files).value;
    SortPermutes(articles);
    SortSorts(articles);
    assert listed == sorted[..|listed|];
    PrefixOfSortedIsNewest(sorted, |listed|);
  }

  lemma {:induction false} WithDateOfPrefix(s: seq<Entry>, k: nat, d: string)
    requires k <= |s|
    ensures WithDate(s[..k], d) <= WithDate(s, d)
    decreases k
  {
    if k > 0 {
      assert s[..k][1..] == s[1..][..k - 1];
      WithDateOfPrefix(s[1..], k - 1, d);
    }
  }

  /** Entries with equal date tokens are listed in the order they were
      scanned, and those listed are the first of them. */
  lemma IndexKeepsScanOrderOnTies(files: seq<ScannedFile>, d: string)
    requires BuildIndex(files).Success?
    ensures WithDate(BuildIndex(files).value, d) <= WithDate(Collect(files).value, d)
  {
    var sorted := SortByDate(Collect(files).value);
    SortIsStable(Collect(files).value, d);
    WithDateOfPrefix(sorted, |BuildIndex(files).value|, d);
  }

  /** A directory holding one complete page besides the index lists that
      page alone. */
  lemma IndexOfOnePage(f: ScannedFile)
    requires Eligible(f) && Complete(f)
    ensures BuildIndex([f]) == Success([ToEntry(f).value])
  {
    var e := ToEntry(f).value;
    assert [f][..0] == [];
    assert Collect([f]) == Success([] + [e]);
    assert [] + [e] == [e];
    assert Collect([f]).value == [e];
    assert [e][1..] == [];
    assert SortByDate([e]) == Insert(e, []) == [e];
    assert Newest([e]) == [e];
    assert BuildIndex([f]) == Success(Newest(SortByDate([e])));
  }

  /** An entry strictly newer than every other entry is sorted first. */
  lemma SortPutsStrictNewestFirst(articles: seq<Entry>, e: Entry)
    requires e in articles
    requires forall x :: x in articles && x != e ==> Less(x.date, e.date)
    ensures |SortByDate(articles)| > 0 && SortByDate(articles)[0] == e
  {
    var sorted := SortByDate(articles);
    SortPermutes(articles);
    SortSorts(articles);
    assert e in multiset(sorted);
    var p :| 0 <= p < |sorted| && sorted[p] == e;
    var x := sorted[0];
    assert x in multiset(articles);
    assert x == e || Less(x.date, e.date);
    assert p == 0 || !Less(x.date, sorted[p].date);
  }

  /** A page dated strictly after every other page is listed first. */
  lemma IndexListsNewestPageFirst(files: seq<ScannedFile>, i: nat)
    requires BuildIndex(files).Success?
    requires i < |files| && Eligible(files[i])
    requires forall j :: 0 <= j < |files| && j != i && Eligible(files[j])
               ==> Less(DateToken(files[j].name), DateToken(files[i].name))
    ensures |BuildIndex(files).value| > 0
    ensures Success(BuildIndex(files).value[0]) == ToEntry(files[i])
  {
    var articles := Collect(files).value;
    var eligibles := Eligibles(files);
    CollectEntries(files);
    assert files[i] in eligibles;
    var k :| 0 <= k < |eligibles| && eligibles[k] == files[i];
    var e := articles[k];
    forall x | x in articles && x != e
      ensures Less(x.date, e.date)
    {
      var j := ScannedPageOf(files, x);
      assert j != i;
    }
    SortPutsStrictNewestFirst(articles, e);
  }

  /** Every collected entry is the entry of some scanned page other than the
      index. */
  lemma ScannedPageOf(files: seq<ScannedFile>, x: Entry) returns (j: nat)
    requires Collect(files).Success? && x in Collect(files).value
    ensures j < |files| && Eligible(files[j]) && ToEntry(files[j]) == Success(x)
  {
    var articles := Collect(files).value;
    var eligibles := Eligibles(files);
    CollectEntries(files);
    var m :| 0 <= m < |articles| && articles[m] == x;
    assert eligibles[m] in eligibles;
    j :| 0 <= j < |files| && files[j] == eligibles[m];
  }
}
