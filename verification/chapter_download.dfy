/** The pure part of `download_chapter`: where a chapter's images go and which of
    them end up written. Rendering, HTML parsing, HTTP and the file system are not
    modelled: the reader area arrives as an optional sequence of images in document
    order, `urljoin` is the parameter `resolve`, and the outcome of fetching the
    image at each position is the parameter `outcome`. */
module ChapterDownload {
  import opened Wrappers
  import opened Text
  import opened Sequences
  import opened ChapterNumber
  import ChapterLinks

  /** The series slug: `ch_url.split(CHAPTER_TOKEN)[0].split('/')[-1]`. */
  function Slug(url: string): (r: string)
    ensures '/' !in r
    ensures exists start :: SlugAt(url, r, start)
  {
    var head := BeforeFirst(url, ChapterLinks.ChapterToken);
    var r := AfterLast(head, '/');
    assert SlugAt(url, r, |head| - |r|);
    r
  }

  /** `r` is `url[start..]` up to the first chapter token (or the end), and starts
      right after a `/` or at the start of `url`. */
  ghost predicate SlugAt(url: string, r: string, start: int) {
    var end := start + |r|;
    && 0 <= start <= end <= |url|
    && r == url[start..end]
    && (start == 0 || url[start - 1] == '/')
    && (forall j :: 0 <= j < end ==> !OccursAt(url, ChapterLinks.ChapterToken, j))
    && (end == |url| || OccursAt(url, ChapterLinks.ChapterToken, end))
  }

  /** The slug of a URL built as `<base>/<slug>-chapter-<rest>` is `slug`, as long as
      no chapter token occurs before the one following it. */
  lemma {:induction false} SlugOfChapterUrl(base: string, slug: string, rest: string)
    requires '/' !in slug
    requires var url := base + "/" + slug + ChapterLinks.ChapterToken + rest;
             forall j :: 0 <= j < |base| + 1 + |slug| ==> !OccursAt(url, ChapterLinks.ChapterToken, j)
    ensures Slug(base + "/" + slug + ChapterLinks.ChapterToken + rest) == slug
  {
    var url := base + "/" + slug + ChapterLinks.ChapterToken + rest;
    var end := |base| + 1 + |slug|;
    assert OccursAt(url, ChapterLinks.ChapterToken, end);
    var head := BeforeFirst(url, ChapterLinks.ChapterToken);
    assert |head| == end;
    assert head == base + "/" + slug;
    var r := AfterLast(head, '/');
    assert head[|base|] == '/';
    assert |r| <= |slug|;
    assert r == slug;
  }

  /** The chapter directory: `Ch<number>`, or `Chunknown` when the number is 0. */
  datatype ChapterDir = Numbered(num: real) | Unknown

  /** `f"Ch{extract_chapter_num(ch_url) or 'unknown'}"`. */
  function DirOf(url: string): (d: ChapterDir)
    ensures d.Numbered? ==> d.num > 0.0 && d.num == ExtractChapterNum(url)
    ensures d.Unknown? <==>
            (forall i :: !MatchAt(url, i))
            || (exists i :: LeftmostMatch(url, i) && NumeralAt(url, i + |Marker|).Value() == 0.0)
  {
    ZeroMeansNoneOrZero(url);
    var n := ExtractChapterNum(url);
    if n == 0.0 then Unknown else Numbered(n)
  }

  /** A URL with no chapter number and one with a genuine `chapter-0` share a directory. */
  lemma ChapterZeroIsUnknown()
    ensures DirOf("s-chapter-0") == Unknown
    ensures DirOf("s") == Unknown
  {
    var s := "s-chapter-0";
    assert s[2..10] == Marker;
    forall j | 0 <= j < 2 ensures !MatchAt(s, j) {
      assert s[j] != 'c' && Marker[0] == 'c';
      assert s[j..j + |Marker|][0] == s[j];
    }
    assert LeftmostMatch(s, 2);
    var d := NumeralAt(s, 10);
    assert d.whole == s[10..10 + |d.whole|] == "0";
    assert d.frac == [];
    assert DigitsValue("0") == 0;
  }

  /** An `<img>` of the reader area: its `src` and `data-src` attributes, each of which
      may be missing. */
  datatype Image = Image(src: Option<string>, dataSrc: Option<string>)

  /** The attribute is present and non-empty, so Python treats it as true. */
  predicate Truthy(a: Option<string>) {
    a.Some? && a.value != []
  }

  /** `img.get('src') or img.get('data-src')`, with `None` where `not img_url` skips. */
  function Source(img: Image): (r: Option<string>)
    ensures r.Some? ==> r.value != []
    ensures r.Some? <==> Truthy(img.src) || Truthy(img.dataSrc)
    ensures Truthy(img.src) ==> r == img.src
    ensures !Truthy(img.src) && r.Some? ==> r == img.dataSrc
  {
    if Truthy(img.src) then img.src
    else if Truthy(img.dataSrc) then img.dataSrc
    else None
  }

  /** The numeral part of the file name for the image at 0-based position `idx`:
      `f"{idx+1:03d}"`. */
  function Stem(idx: nat): (r: string)
    ensures AllDigits(r) && DigitsValue(r) == idx + 1
    ensures |r| >= 3
    ensures |r| > 3 ==> r[0] != '0'
  {
    var digits := NatToDigits(idx + 1);
    if |digits| < 3 then
      LeadingZeros(3 - |digits|, digits);
      Repeat('0', 3 - |digits|) + digits
    else digits
  }

  const Extension: string := ".webp"

  /** `f"{idx+1:03d}.webp"`. */
  function FileName(idx: nat): (r: string)
    ensures |r| >= 3 + |Extension|
    ensures r[|r| - |Extension|..] == Extension
    ensures var stem := r[..|r| - |Extension|];
            AllDigits(stem) && DigitsValue(stem) == idx + 1
    ensures |r| > 3 + |Extension| ==> r[0] != '0'
  {
    var r := Stem(idx) + Extension;
    assert r[..|r| - |Extension|] == Stem(idx);
    r
  }

  /** Distinct positions get distinct file names. */
  lemma FileNameInjective(i: nat, j: nat)
    requires FileName(i) == FileName(j)
    ensures i == j
  {
    var f := FileName(i);
    assert DigitsValue(f[..|f| - |Extension|]) == i + 1 == j + 1;
  }

  /** The file the first image goes to. */
  lemma FirstFileName()
    ensures FileName(0) == "001.webp"
  {
    assert NatToDigits(1) == "1";
  }

  /** One download: the position of the image, its resolved URL and its file name. */
  datatype Job = Job(index: nat, url: string, file: string)

  predicate IndicesIncreasing(jobs: seq<Job>) {
    forall i, j :: 0 <= i < j < |jobs| ==> jobs[i].index < jobs[j].index
  }

  /** The job is for an image that has a source, fetches that source resolved against
      the chapter URL and is named after the image's position. */
  predicate JobFor(resolve: (string, string) -> string, chUrl: string, images: seq<Image>, job: Job) {
    && job.index < |images|
    && Source(images[job.index]).Some?
    && job.url == resolve(chUrl, Source(images[job.index]).value)
    && job.file == FileName(job.index)
  }

  ghost predicate JobsFor(resolve: (string, string) -> string, chUrl: string, images: seq<Image>, jobs: seq<Job>) {
    forall i :: 0 <= i < |jobs| ==> JobFor(resolve, chUrl, images, jobs[i])
  }

  /** The loop `for idx, img in enumerate(images)` up to the request: one job per
      image with a source, in document order. Skipped images keep their position. */
  function Plan(resolve: (string, string) -> string, chUrl: string, images: seq<Image>): (r: seq<Job>)
    ensures JobsFor(resolve, chUrl, images, r)
    ensures IndicesIncreasing(r)
    ensures forall k :: 0 <= k < |images| && Source(images[k]).Some? ==>
              exists i :: 0 <= i < |r| && r[i].index == k
  {
    if images == [] then []
    else
      var n := |images| - 1;
      var p := Plan(resolve, chUrl, images[..n]);
      PlanStep(resolve, chUrl, images, p);
      Extend(resolve, chUrl, images, p)
  }

  /** The jobs for `images` given the jobs `p` for all but the last image. */
  function Extend(resolve: (string, string) -> string, chUrl: string, images: seq<Image>, p: seq<Job>): seq<Job>
    requires images != []
  {
    var n := |images| - 1;
    var src := Source(images[n]);
    if src.Some? then p + [Job(n, resolve(chUrl, src.value), FileName(n))] else p
  }

  lemma PlanStep(resolve: (string, string) -> string, chUrl: string, images: seq<Image>, p: seq<Job>)
    requires images != []
    requires var n := |images| - 1;
             && JobsFor(resolve, chUrl, images[..n], p)
             && IndicesIncreasing(p)
             && forall k :: 0 <= k < n && Source(images[..n][k]).Some? ==>
                  exists i :: 0 <= i < |p| && p[i].index == k
    ensures var r := Extend(resolve, chUrl, images, p);
            && JobsFor(resolve, chUrl, images, r)
            && IndicesIncreasing(r)
            && forall k :: 0 <= k < |images| && Source(images[k]).Some? ==>
                 exists i :: 0 <= i < |r| && r[i].index == k
  {
    var n := |images| - 1;
    JobsForPrefix(resolve, chUrl, images, n, p);
    var src := Source(images[n]);
    if src.Some? {
      var job := Job(n, resolve(chUrl, src.value), FileName(n));
      var r := p + [job];
      assert JobFor(resolve, chUrl, images, job);
      assert r[|p|].index == n;
      assert forall i :: 0 <= i < |p| ==> r[i] == p[i];
      AppendIncreasing(p, job);
      Covered(images, p, r);
    } else {
      Covered(images, p, p);
    }
  }

  lemma JobsForPrefix(resolve: (string, string) -> string, chUrl: string, images: seq<Image>, n: nat, jobs: seq<Job>)
    requires n <= |images|
    requires JobsFor(resolve, chUrl, images[..n], jobs)
    ensures JobsFor(resolve, chUrl, images, jobs)
    ensures forall i :: 0 <= i < |jobs| ==> jobs[i].index < n
  {
    forall i | 0 <= i < |jobs| ensures JobFor(resolve, chUrl, images, jobs[i]) {
      assert JobFor(resolve, chUrl, images[..n], jobs[i]);
      assert images[..n][jobs[i].index] == images[jobs[i].index];
    }
  }

  lemma AppendIncreasing(jobs: seq<Job>, job: Job)
    requires IndicesIncreasing(jobs)
    requires forall i :: 0 <= i < |jobs| ==> jobs[i].index < job.index
    ensures IndicesIncreasing(jobs + [job])
  {
  }

  /** Extending the images by one keeps every earlier image covered by a job. */
  lemma Covered(images: seq<Image>, p: seq<Job>, r: seq<Job>)
    requires images != []
    requires var n := |images| - 1;
             forall k :: 0 <= k < n && Source(images[..n][k]).Some? ==>
               exists i :: 0 <= i < |p| && p[i].index == k
    requires |p| <= |r| && forall i :: 0 <= i < |p| ==> r[i] == p[i]
    requires Source(images[|images| - 1]).Some? ==> exists i :: 0 <= i < |r| && r[i].index == |images| - 1
    ensures forall k :: 0 <= k < |images| && Source(images[k]).Some? ==>
              exists i :: 0 <= i < |r| && r[i].index == k
  {
    var n := |images| - 1;
    forall k | 0 <= k < |images| && Source(images[k]).Some?
      ensures exists i :: 0 <= i < |r| && r[i].index == k
    {
      if k < n {
        assert images[..n][k] == images[k];
        var i :| 0 <= i < |p| && p[i].index == k;
        assert r[i].index == k;
      }
    }
  }

  /** The result of fetching one image: a response with a status code, or an exception. */
  datatype Fetch = Response(status: int) | Raised

  /** The file is written only for a response with status exactly 200. */
  predicate Writes(f: Fetch) {
    f == Response(200)
  }

  /** The jobs whose file gets written, in the order they run. */
  function Written(jobs: seq<Job>, outcome: nat -> Fetch): (r: seq<Job>)
    ensures forall job :: job in r <==> job in jobs && Writes(outcome(job.index))
    ensures IsSubsequence(r, jobs)
  {
    FilterIsSubsequence(jobs, (job: Job) => Writes(outcome(job.index)));
    Filter(jobs, (job: Job) => Writes(outcome(job.index)))
  }

  /** What a call of `download_chapter` leaves behind. */
  datatype ChapterResult =
    | NoReaderArea
    | Saved(slug: string, dir: ChapterDir, written: seq<Job>)

  /** `download_chapter(ch_url)`: without a reader area nothing is written; otherwise
      the file of image `k` is written exactly when the image has a source and its
      fetch answered 200, whatever happened to the other images. */
  function DownloadChapter(resolve: (string, string) -> string, chUrl: string,
                           reader: Option<seq<Image>>, outcome: nat -> Fetch): (r: ChapterResult)
    ensures reader.None? <==> r.NoReaderArea?
    ensures r.Saved? ==> r.slug == Slug(chUrl) && r.dir == DirOf(chUrl)
    ensures r.Saved? ==> WrittenExactly(resolve, chUrl, reader.value, outcome, r.written)
  {
    match reader
    case None => NoReaderArea
    case Some(images) =>
      WrittenJobs(resolve, chUrl, images, outcome);
      Saved(Slug(chUrl), DirOf(chUrl), Written(Plan(resolve, chUrl, images), outcome))
  }

  /** `written` are jobs of the chapter, in image order, and the file of image `k` is
      among them exactly when the image has a source and its fetch answered 200. */
  ghost predicate WrittenExactly(resolve: (string, string) -> string, chUrl: string, images: seq<Image>,
                                 outcome: nat -> Fetch, written: seq<Job>) {
    && JobsFor(resolve, chUrl, images, written)
    && IndicesIncreasing(written)
    && forall k :: 0 <= k < |images| ==>
         ((exists i :: 0 <= i < |written| && written[i].index == k) <==>
          Source(images[k]).Some? && Writes(outcome(k)))
  }

  lemma WrittenJobs(resolve: (string, string) -> string, chUrl: string, images: seq<Image>,
                    outcome: nat -> Fetch)
    ensures WrittenExactly(resolve, chUrl, images, outcome, Written(Plan(resolve, chUrl, images), outcome))
  {
    var plan := Plan(resolve, chUrl, images);
    var w := Written(plan, outcome);
    SubsequenceKeepsJobs(resolve, chUrl, images, w, plan);
    WrittenCovers(images, plan, outcome);
    WrittenOnlySuccesses(resolve, chUrl, images, w, outcome);
  }

  lemma WrittenCovers(images: seq<Image>, plan: seq<Job>, outcome: nat -> Fetch)
    requires forall k :: 0 <= k < |images| && Source(images[k]).Some? ==>
               exists i :: 0 <= i < |plan| && plan[i].index == k
    ensures forall k :: 0 <= k < |images| && Source(images[k]).Some? && Writes(outcome(k)) ==>
              exists i :: 0 <= i < |Written(plan, outcome)| && Written(plan, outcome)[i].index == k
  {
    var w := Written(plan, outcome);
    forall k | 0 <= k < |images| && Source(images[k]).Some? && Writes(outcome(k))
      ensures exists i :: 0 <= i < |w| && w[i].index == k
    {
      var i :| 0 <= i < |plan| && plan[i].index == k;
      assert plan[i] in w;
      var i' :| 0 <= i' < |w| && w[i'] == plan[i];
    }
  }

  lemma WrittenOnlySuccesses(resolve: (string, string) -> string, chUrl: string, images: seq<Image>,
                             w: seq<Job>, outcome: nat -> Fetch)
    requires JobsFor(resolve, chUrl, images, w)
    requires forall job :: job in w ==> Writes(outcome(job.index))
    ensures forall i :: 0 <= i < |w| ==>
              w[i].index < |images| && Source(images[w[i].index]).Some? && Writes(outcome(w[i].index))
  {
    forall i | 0 <= i < |w|
      ensures w[i].index < |images| && Source(images[w[i].index]).Some? && Writes(outcome(w[i].index))
    {
      assert JobFor(resolve, chUrl, images, w[i]);
      assert w[i] in w;
    }
  }

  lemma SubsequenceKeepsJobs(resolve: (string, string) -> string, chUrl: string, images: seq<Image>,
                             a: seq<Job>, b: seq<Job>)
    requires IsSubsequence(a, b)
    requires JobsFor(resolve, chUrl, images, b) && IndicesIncreasing(b)
    ensures JobsFor(resolve, chUrl, images, a) && IndicesIncreasing(a)
  {
    var m :| Embedding(m, a, b);
    forall i, j | 0 <= i < j < |a| ensures a[i].index < a[j].index {
      assert a[i] == b[m[i]] && a[j] == b[m[j]];
    }
    forall i | 0 <= i < |a| ensures a[i] == b[m[i]] {
    }
  }

  /** Per-image isolation: changing the outcome of image `j` changes nothing about
      the writes of any other image. */
  lemma FailureIsolated(resolve: (string, string) -> string, chUrl: string, images: seq<Image>,
                        o1: nat -> Fetch, o2: nat -> Fetch, j: nat)
    requires forall k :: k != j ==> o1(k) == o2(k)
    ensures var plan := Plan(resolve, chUrl, images);
            Filter(Written(plan, o1), (job: Job) => job.index != j)
            == Filter(Written(plan, o2), (job: Job) => job.index != j)
  {
    var plan := Plan(resolve, chUrl, images);
    FilterAgreeing(plan, (job: Job) => Writes(o1(job.index)), (job: Job) => Writes(o2(job.index)), (job: Job) => job.index != j);
  }

  /** Three images with sources where the second answers 404: only the first and the
      third are written. */
  lemma SecondImageMissing(resolve: (string, string) -> string, chUrl: string, outcome: nat -> Fetch)
    requires outcome(0) == Response(200) && outcome(1) == Response(404) && outcome(2) == Response(200)
    ensures var img := Image(Some("p.webp"), None);
            var r := DownloadChapter(resolve, chUrl, Some([img, img, img]), outcome);
            r.Saved? && |r.written| == 2
            && r.written[0].index == 0 && r.written[1].index == 2
  {
    var img := Image(Some("p.webp"), None);
    var images := [img, img, img];
    var r := DownloadChapter(resolve, chUrl, Some(images), outcome);
    assert Truthy(img.src);
    assert Source(img).Some?;
    assert WrittenExactly(resolve, chUrl, images, outcome, r.written);
    OnlyFirstAndThird(resolve, chUrl, images, outcome, r.written);
  }

  lemma OnlyFirstAndThird(resolve: (string, string) -> string, chUrl: string, images: seq<Image>,
                          outcome: nat -> Fetch, w: seq<Job>)
    requires |images| == 3
    requires Source(images[0]).Some? && Source(images[1]).Some? && Source(images[2]).Some?
    requires outcome(0) == Response(200) && outcome(1) == Response(404) && outcome(2) == Response(200)
    requires WrittenExactly(resolve, chUrl, images, outcome, w)
    ensures |w| == 2 && w[0].index == 0 && w[1].index == 2
  {
    forall i | 0 <= i < |w| ensures w[i].index < 3 {
      assert JobFor(resolve, chUrl, images, w[i]);
    }
    FirstAndThird(w);
  }

  lemma FirstAndThird(w: seq<Job>)
    requires IndicesIncreasing(w)
    requires forall i :: 0 <= i < |w| ==> w[i].index < 3
    requires exists i :: 0 <= i < |w| && w[i].index == 0
    requires !exists i :: 0 <= i < |w| && w[i].index == 1
    requires exists i :: 0 <= i < |w| && w[i].index == 2
    ensures |w| == 2 && w[0].index == 0 && w[1].index == 2
  {
    var a :| 0 <= a < |w| && w[a].index == 0;
    var b :| 0 <= b < |w| && w[b].index == 2;
    assert a < b;
    var s: set<nat> := {0, 2};
    assert forall i :: 0 <= i < |w| ==> w[i].index in s;
    CountBound(w, s);
    assert |s| == 2;
  }

  /** Jobs with strictly increasing indices drawn from `s` number at most `|s|`. */
  lemma {:induction false} CountBound(w: seq<Job>, s: set<nat>)
    requires IndicesIncreasing(w)
    requires forall i :: 0 <= i < |w| ==> w[i].index in s
    ensures |w| <= |s|
  {
    if w != [] {
      var n := |w| - 1;
      var x := w[n].index;
      assert forall i :: 0 <= i < n ==> w[..n][i] == w[i] && w[i].index < x;
      CountBound(w[..n], s - {x});
    }
  }
}
