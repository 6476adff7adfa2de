/** `src/state_manager.ts`: the per-job content state, the ordered list of
    still-missing fields, and the chapter-coverage check. The class with a
    mutable `state` field becomes an immutable `ContentState` and pure
    operations on it. */
module StateManager {
  import SrcUtils

  type Frontmatter = SrcUtils.Frontmatter

  /** A transcript chapter: only `number` is ever inspected; the rest of the
      record is carried as an opaque body. */
  datatype Chapter = Chapter(number: int, body: string)

  /** `ContentState`. `numChapters` is a plain number: nothing stops it from
      being negative. */
  datatype ContentState = ContentState(
    key: string,
    basename: string,
    frontmatter: Frontmatter,
    numChapters: int,
    chapters: seq<Chapter>)

  /** The five state properties. `getMissingProperties` reports them by
      `Name`, and `setProperty`/`getProperty` are keyed by them. */
  datatype Property = Key | Basename | NumChapters | Chapters | FrontmatterField

  function Name(p: Property): string {
    match p
    case Key => "key"
    case Basename => "basename"
    case NumChapters => "num_chapters"
    case Chapters => "chapters"
    case FrontmatterField => "frontmatter"
  }

  /** Distinct properties have distinct names. */
  lemma NamesDistinct(p: Property, q: Property)
    ensures Name(p) == Name(q) ==> p == q
  {
    if p != q && |Name(p)| == |Name(q)| {
      assert Name(p)[0] != Name(q)[0];
    }
  }

  /** The order in which `getMissingProperties` checks the properties. */
  const MissingOrder: seq<Property> := [Key, Basename, NumChapters, Chapters, FrontmatterField]

  /** Position of a property in `MissingOrder`. */
  function Rank(p: Property): nat {
    match p
    case Key => 0
    case Basename => 1
    case NumChapters => 2
    case Chapters => 3
    case FrontmatterField => 4
  }

  /** A list in strictly increasing `MissingOrder` position: ordered, and so
      without repeats. */
  predicate Ordered(ps: seq<Property>) {
    forall i, j :: 0 <= i < j < |ps| ==> Rank(ps[i]) < Rank(ps[j])
  }

  // ---------------------------------------------------------------------
  // the empty sentinel

  /** The `emptyFrontmatter` sentinel. It lists eleven keys; `compute_type`
      is absent from it, represented here by `""`, and no check reads it. */
  const EmptyFrontmatter: Frontmatter := SrcUtils.Frontmatter(
    audioSource := "", title := "", tags := "", description := "",
    uploaderId := "", channel := "", uploadDate := "", duration := "",
    downloadTime := "", transcriptionTime := "", audioQuality := "",
    computeType := "")

  /** The `every` test of `getMissingProperties`: each of the sentinel's
      eleven keys is `''` in the frontmatter. */
  predicate FrontmatterMissing(f: Frontmatter) {
    && f.audioSource == "" && f.title == "" && f.tags == "" && f.description == ""
    && f.uploaderId == "" && f.channel == "" && f.uploadDate == "" && f.duration == ""
    && f.downloadTime == "" && f.transcriptionTime == "" && f.audioQuality == ""
  }

  /** The frontmatter counts as missing exactly when it equals the sentinel
      on every field except, possibly, `compute_type`. */
  lemma FrontmatterMissingIffSentinel(f: Frontmatter)
    ensures FrontmatterMissing(f) <==> f.(computeType := "") == EmptyFrontmatter
  {
  }

  /** A frontmatter that differs from the sentinel only in `compute_type`
      is still reported missing. */
  lemma ComputeTypeIgnored(computeType: string)
    ensures FrontmatterMissing(EmptyFrontmatter.(computeType := computeType))
  {
  }

  /** A frontmatter built by `createFrontmatter_object` is never missing:
      its `audio_quality` falls back to `"unknown"`, never `''`. */
  lemma BuiltFrontmatterNeverMissing(m: SrcUtils.Metadata)
    ensures !FrontmatterMissing(SrcUtils.CreateFrontmatter(m))
  {
  }

  /** `resetState`: every field back to its sentinel, so the job counts as
      having received nothing. */
  function ResetState(): (s: ContentState)
    ensures s.key == "" && s.basename == "" && s.numChapters == 0 && s.chapters == []
    ensures s.frontmatter == EmptyFrontmatter
    ensures GetMissingProperties(s) == MissingOrder
  {
    ContentState("", "", EmptyFrontmatter, 0, [])
  }

  // ---------------------------------------------------------------------
  // setProperty / getProperty

  /** A property value tagged with the property it belongs to (the
      `ContentState[K]` of the generic signature). */
  datatype PropertyValue =
    | KeyValue(key: string)
    | BasenameValue(basename: string)
    | FrontmatterValue(frontmatter: Frontmatter)
    | NumChaptersValue(numChapters: int)
    | ChaptersValue(chapters: seq<Chapter>)

  function PropertyOf(v: PropertyValue): Property {
    match v
    case KeyValue(_) => Key
    case BasenameValue(_) => Basename
    case FrontmatterValue(_) => FrontmatterField
    case NumChaptersValue(_) => NumChapters
    case ChaptersValue(_) => Chapters
  }

  /** `getProperty`. */
  function GetProperty(s: ContentState, p: Property): (v: PropertyValue)
    ensures PropertyOf(v) == p
  {
    match p
    case Key => KeyValue(s.key)
    case Basename => BasenameValue(s.basename)
    case FrontmatterField => FrontmatterValue(s.frontmatter)
    case NumChapters => NumChaptersValue(s.numChapters)
    case Chapters => ChaptersValue(s.chapters)
  }

  /** `setProperty`: a copy of the state with one field replaced. Reading the
      field back gives the value; every other field reads as before. */
  function SetProperty(s: ContentState, v: PropertyValue): (r: ContentState)
    ensures GetProperty(r, PropertyOf(v)) == v
    ensures forall p :: p != PropertyOf(v) ==> GetProperty(r, p) == GetProperty(s, p)
  {
    match v
    case KeyValue(k) => s.(key := k)
    case BasenameValue(b) => s.(basename := b)
    case FrontmatterValue(f) => s.(frontmatter := f)
    case NumChaptersValue(n) => s.(numChapters := n)
    case ChaptersValue(cs) => s.(chapters := cs)
  }

  // ---------------------------------------------------------------------
  // chapter coverage

  /** Some chapter in `chapters` has number `n` (`chapters.some(...)`). */
  predicate HasChapter(chapters: seq<Chapter>, n: int) {
    exists j :: 0 <= j < |chapters| && chapters[j].number == n
  }

  /** `checkChaptersComplete` as the code states it: a known, non-zero count,
      at least that many chapters, and a chapter for every number from 1 to
      the count. */
  predicate ChaptersComplete(s: ContentState) {
    && s.numChapters != 0
    && |s.chapters| >= s.numChapters
    && forall n :: 1 <= n <= s.numChapters ==> HasChapter(s.chapters, n)
  }

  /** The `some` scan of one chapter number. */
  method AnyChapterNumbered(chapters: seq<Chapter>, n: int) returns (found: bool)
    ensures found <==> HasChapter(chapters, n)
  {
    var j := 0;
    while j < |chapters|
      invariant 0 <= j <= |chapters|
      invariant forall m :: 0 <= m < j ==> chapters[m].number != n
    {
      if chapters[j].number == n {
        return true;
      }
      j := j + 1;
    }
    return false;
  }

  /** `checkChaptersComplete`, with its early exit and its loop over
      `1..numChapters`. */
  method CheckChaptersComplete(s: ContentState) returns (complete: bool)
    ensures complete <==> ChaptersComplete(s)
  {
    if |s.chapters| < s.numChapters || s.numChapters == 0 {
      return false;
    }
    var i := 1;
    while i <= s.numChapters
      invariant 1 <= i
      invariant s.numChapters >= 0 ==> i <= s.numChapters + 1
      invariant forall n :: 1 <= n < i ==> HasChapter(s.chapters, n)
    {
      var found := AnyChapterNumbered(s.chapters, i);
      if !found {
        return false;
      }
      i := i + 1;
    }
    return true;
  }

  /** The numbers the chapters carry. */
  function Numbers(chapters: seq<Chapter>): (ns: set<int>)
    ensures |ns| <= |chapters|
    ensures forall n :: n in ns <==> HasChapter(chapters, n)
    decreases |chapters|
  {
    if |chapters| == 0 then {}
    else
      var rest := Numbers(chapters[1..]);
      assert forall n :: HasChapter(chapters, n) <==> n == chapters[0].number || HasChapter(chapters[1..], n) by {
        forall n | HasChapter(chapters[1..], n) ensures HasChapter(chapters, n) {
          var j :| 0 <= j < |chapters[1..]| && chapters[1..][j].number == n;
          assert chapters[j + 1].number == n;
        }
        forall n | HasChapter(chapters, n) && n != chapters[0].number ensures HasChapter(chapters[1..], n) {
          var j :| 0 <= j < |chapters| && chapters[j].number == n;
          assert chapters[1..][j - 1].number == n;
        }
      }
      {chapters[0].number} + rest
  }

  function Range(lo: int, hi: int): (r: set<int>)
    requires lo <= hi
    ensures forall n :: n in r <==> lo <= n < hi
    ensures |r| == hi - lo
    decreases hi - lo
  {
    if lo == hi then {} else {lo} + Range(lo + 1, hi)
  }

  /** Covering every number in `1..n` takes at least `n` chapters, so the
      length test of `checkChaptersComplete` never changes its answer. */
  lemma CoverageNeedsEnoughChapters(chapters: seq<Chapter>, n: int)
    requires n >= 0
    requires forall k :: 1 <= k <= n ==> HasChapter(chapters, k)
    ensures |chapters| >= n
  {
    var needed := Range(1, n + 1);
    assert needed <= Numbers(chapters);
    assert |needed| <= |Numbers(chapters)| by {
      var ns := Numbers(chapters);
      assert ns == needed + (ns - needed);
    }
  }

  /** `checkChaptersComplete` holds iff the count is non-zero and every
      number from 1 to the count has a chapter. Negative counts pass
      vacuously; extra, repeated or out-of-range chapters never hurt. */
  lemma ChaptersCompleteIff(s: ContentState)
    ensures ChaptersComplete(s) <==>
              s.numChapters != 0 && forall n :: 1 <= n <= s.numChapters ==> HasChapter(s.chapters, n)
    ensures s.numChapters < 0 ==> ChaptersComplete(s)
  {
    if s.numChapters > 0 && forall n :: 1 <= n <= s.numChapters ==> HasChapter(s.chapters, n) {
      CoverageNeedsEnoughChapters(s.chapters, s.numChapters);
    }
  }

  // ---------------------------------------------------------------------
  // getMissingProperties / removeMissingProperty / addChapter

  /** The list `getMissingProperties` builds, check by check. */
  function MissingList(s: ContentState): seq<Property> {
    (if s.key == "" then [Key] else [])
    + (if s.basename == "" then [Basename] else [])
    + (if s.numChapters == 0 then [NumChapters, Chapters]
       else if !ChaptersComplete(s) then [Chapters] else [])
    + (if FrontmatterMissing(s.frontmatter) then [FrontmatterField] else [])
  }

  lemma MissingListOrdered(s: ContentState)
    ensures Ordered(MissingList(s))
  {
  }

  lemma MissingListFields(s: ContentState)
    ensures Key in MissingList(s) <==> s.key == ""
    ensures Basename in MissingList(s) <==> s.basename == ""
    ensures NumChapters in MissingList(s) <==> s.numChapters == 0
  {
  }

  lemma MissingListChecks(s: ContentState)
    ensures Chapters in MissingList(s) <==> !ChaptersComplete(s)
    ensures FrontmatterField in MissingList(s) <==> FrontmatterMissing(s.frontmatter)
  {
  }

  /** `getMissingProperties`, in its checking order. Each property is
      reported exactly when it is unset; `chapters` is reported exactly when
      the coverage check fails, which includes every state whose count is 0.
      The source returns the properties' `Name`s. */
  function GetMissingProperties(s: ContentState): (missing: seq<Property>)
    ensures Ordered(missing)
    ensures Key in missing <==> s.key == ""
    ensures Basename in missing <==> s.basename == ""
    ensures NumChapters in missing <==> s.numChapters == 0
    ensures Chapters in missing <==> !ChaptersComplete(s)
    ensures FrontmatterField in missing <==> FrontmatterMissing(s.frontmatter)
  {
    MissingListOrdered(s);
    MissingListFields(s);
    MissingListChecks(s);
    MissingList(s)
  }

  /** An ordered list is fixed by which properties it contains: the
      missing list is the subsequence of `MissingOrder` that is unset. */
  lemma {:induction false} OrderedDetermined(a: seq<Property>, b: seq<Property>)
    requires Ordered(a) && Ordered(b)
    requires forall x :: x in a <==> x in b
    ensures a == b
    decreases |a|
  {
    assert |a| > 0 ==> a[0] in b;
    assert |b| > 0 ==> b[0] in a;
    if |a| > 0 {
      var j :| 0 <= j < |b| && b[j] == a[0];
      assert Rank(b[0]) <= Rank(b[j]);
      var i :| 0 <= i < |a| && a[i] == b[0];
      assert Rank(a[0]) <= Rank(a[i]);
      assert a[0] == b[0];
      forall x ensures x in a[1..] <==> x in b[1..] {
        if x in a[1..] {
          var i :| 0 <= i < |a[1..]| && a[1..][i] == x;
          assert Rank(a[0]) < Rank(a[i + 1]);
          assert x in b;
          var j :| 0 <= j < |b| && b[j] == x;
          assert j != 0;
          assert b[1..][j - 1] == x;
        }
        if x in b[1..] {
          var i :| 0 <= i < |b[1..]| && b[1..][i] == x;
          assert Rank(b[0]) < Rank(b[i + 1]);
          assert x in a;
          var j :| 0 <= j < |a| && a[j] == x;
          assert j != 0;
          assert a[1..][j - 1] == x;
        }
      }
      OrderedDetermined(a[1..], b[1..]);
      assert a == [a[0]] + a[1..] && b == [b[0]] + b[1..];
    }
  }

  /** Whether `getMissingProperties` would report `p`. */
  predicate IsMissing(s: ContentState, p: Property) {
    match p
    case Key => s.key == ""
    case Basename => s.basename == ""
    case NumChapters => s.numChapters == 0
    case Chapters => !ChaptersComplete(s)
    case FrontmatterField => FrontmatterMissing(s.frontmatter)
  }

  /** Any ordered list holding exactly the unset properties is the one
      `getMissingProperties` returns. */
  lemma MissingListUnique(s: ContentState, ps: seq<Property>)
    requires Ordered(ps)
    requires forall p :: p in ps <==> IsMissing(s, p)
    ensures ps == GetMissingProperties(s)
  {
    var m := GetMissingProperties(s);
    forall p ensures p in ps <==> p in m {
      match p
      case Key =>
      case Basename =>
      case NumChapters =>
      case Chapters =>
      case FrontmatterField =>
    }
    OrderedDetermined(ps, m);
  }

  /** The job is complete exactly when nothing is missing. */
  lemma NothingMissingIffComplete(s: ContentState)
    ensures GetMissingProperties(s) == [] <==>
              s.key != "" && s.basename != "" && ChaptersComplete(s) && !FrontmatterMissing(s.frontmatter)
  {
    var m := GetMissingProperties(s);
    if m != [] {
      assert m[0] in m;
    }
  }

  /** `indexOf` of a name in a list of properties: the first position whose
      name matches, -1 if none. */
  function IndexOfName(ps: seq<Property>, name: string): (r: int)
    ensures r == -1 <==> forall k :: 0 <= k < |ps| ==> Name(ps[k]) != name
    ensures r != -1 ==> 0 <= r < |ps| && Name(ps[r]) == name
                        && forall k :: 0 <= k < r ==> Name(ps[k]) != name
    decreases |ps|
  {
    if |ps| == 0 then -1
    else if Name(ps[0]) == name then 0
    else
      var r := IndexOfName(ps[1..], name);
      if r == -1 then -1 else r + 1
  }

  /** `removeMissingProperty`: it splices the name out of a freshly computed
      local list and then drops that list. The model returns the unchanged
      state together with the list the code computes and discards. */
  function RemoveMissingProperty(s: ContentState, property: string): (r: (ContentState, seq<Property>))
    ensures r.0 == s
    ensures forall p :: p in r.1 ==> Name(p) != property
    ensures forall p :: Name(p) != property ==> (p in r.1 <==> p in GetMissingProperties(s))
    ensures Ordered(r.1)
  {
    var missing := GetMissingProperties(s);
    var index := IndexOfName(missing, property);
    if index > -1 then
      RemoveByName(missing, property, index);
      (s, missing[..index] + missing[index + 1..])
    else
      (s, missing)
  }

  /** Splicing out the first entry with a given name leaves no entry with
      that name, since an ordered list has no repeats. */
  lemma RemoveByName(ps: seq<Property>, name: string, index: nat)
    requires Ordered(ps) && index < |ps| && Name(ps[index]) == name
    ensures forall p :: p in ps[..index] + ps[index + 1..] ==> Name(p) != name
    ensures forall p :: Name(p) != name ==> (p in ps[..index] + ps[index + 1..] <==> p in ps)
    ensures Ordered(ps[..index] + ps[index + 1..])
  {
    SpliceOrdered(ps, index);
    var spliced := ps[..index] + ps[index + 1..];
    forall p | p in spliced ensures Name(p) != name {
      NamesDistinct(p, ps[index]);
    }
    forall p | Name(p) != name ensures p in spliced <==> p in ps {
      NamesDistinct(p, ps[index]);
    }
  }

  /** Taking one entry out of an ordered list keeps it ordered and removes
      exactly that entry. */
  lemma SpliceOrdered(ps: seq<Property>, index: nat)
    requires Ordered(ps) && index < |ps|
    ensures Ordered(ps[..index] + ps[index + 1..])
    ensures forall x :: x in ps[..index] + ps[index + 1..] <==> x in ps && x != ps[index]
  {
    var spliced := ps[..index] + ps[index + 1..];
    forall i, j | 0 <= i < j < |spliced| ensures Rank(spliced[i]) < Rank(spliced[j]) {
      var i' := if i < index then i else i + 1;
      var j' := if j < index then j else j + 1;
      assert spliced[i] == ps[i'] && spliced[j] == ps[j'];
    }
    forall x ensures x in spliced <==> x in ps && x != ps[index] {
      if x in spliced {
        var k :| 0 <= k < |spliced| && spliced[k] == x;
        var k' := if k < index then k else k + 1;
        assert ps[k'] == x && k' != index;
        assert Rank(ps[k']) != Rank(ps[index]);
      }
      if x in ps && x != ps[index] {
        var k :| 0 <= k < |ps| && ps[k] == x;
        if k < index { assert spliced[k] == x; } else { assert spliced[k - 1] == x; }
      }
    }
  }

  /** `addChapter`: a plain push. The list grows by exactly one, earlier
      entries stay in place, and nothing else changes. */
  function AddChapter(s: ContentState, c: Chapter): (r: ContentState)
    ensures |r.chapters| == |s.chapters| + 1
    ensures r.chapters[..|s.chapters|] == s.chapters && r.chapters[|s.chapters|] == c
    ensures r.key == s.key && r.basename == s.basename && r.frontmatter == s.frontmatter
    ensures r.numChapters == s.numChapters
  {
    s.(chapters := s.chapters + [c])
  }

  /** How many chapters carry number `n`. */
  function CountNumbered(chapters: seq<Chapter>, n: int): nat
    decreases |chapters|
  {
    if |chapters| == 0 then 0
    else (if chapters[|chapters| - 1].number == n then 1 else 0) + CountNumbered(chapters[..|chapters| - 1], n)
  }

  /** No deduplication: adding a chapter whose number is already present
      still adds one more chapter with that number. */
  lemma AddChapterKeepsDuplicates(s: ContentState, c: Chapter)
    ensures CountNumbered(AddChapter(s, c).chapters, c.number) == CountNumbered(s.chapters, c.number) + 1
  {
    var cs := AddChapter(s, c).chapters;
    assert cs[..|cs| - 1] == s.chapters;
  }

  /** Adding a chapter never removes coverage, and can only take `chapters`
      off the missing list. */
  lemma AddChapterMonotone(s: ContentState, c: Chapter)
    ensures ChaptersComplete(s) ==> ChaptersComplete(AddChapter(s, c))
    ensures forall x :: x in GetMissingProperties(AddChapter(s, c)) ==> x in GetMissingProperties(s)
  {
    var r := AddChapter(s, c);
    forall n | HasChapter(s.chapters, n) ensures HasChapter(r.chapters, n) {
      var j :| 0 <= j < |s.chapters| && s.chapters[j].number == n;
      assert r.chapters[j] == s.chapters[j];
    }
  }
}
