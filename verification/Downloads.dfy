// Download names, the download folder and the per-profile download index
// (crates/broadwebd/src/state.rs). The file system is a map from path to entry; an index file is
// the sequence of its records.
module Downloads {
  import opened Text

  type Bytes = seq<Byte>

  // ---------- names ----------

  predicate IsNameChar(c: char) {
    IsAsciiAlphanumeric(c) || c == '.' || c == '-' || c == '_'
  }

  predicate AllNameChars(s: string) {
    forall i :: 0 <= i < |s| ==> IsNameChar(s[i])
  }

  function SafeChar(c: char): char {
    if IsNameChar(c) then c else '_'
  }

  function Replaced(s: string): (r: string)
    ensures |r| == |s|
    ensures forall i :: 0 <= i < |s| ==> r[i] == SafeChar(s[i])
  {
    if s == "" then "" else [SafeChar(s[0])] + Replaced(s[1..])
  }

  function TrimDots(s: string): (r: string)
    ensures r != "" ==> r[0] != '.' && r[|r| - 1] != '.'
    ensures |r| <= |s| && (AllNameChars(s) ==> AllNameChars(r))
    ensures s != "" && s[0] != '.' && s[|s| - 1] != '.' ==> r == s
    decreases |s|
  {
    if s == "" then ""
    else if s[0] == '.' then TrimDots(s[1..])
    else if s[|s| - 1] == '.' then TrimDots(s[..|s| - 1])
    else s
  }

  function Shortened(s: string): string {
    if |s| <= 160 then s else s[..160]
  }

  function Sanitized(filename: string): string {
    var output := TrimDots(Replaced(Shortened(filename)));
    if output == "" then "download" else output
  }

  method SanitizedFilename(filename: string) returns (r: string)
    ensures r == Sanitized(filename)
  {
    var output := "";
    var taken := Shortened(filename);
    ghost var replaced := Replaced(taken);
    for i := 0 to |taken|
      invariant output == replaced[..i]
    {
      if IsNameChar(taken[i]) {
        output := output + [taken[i]];
      } else {
        output := output + ['_'];
      }
    }
    assert output == replaced;
    output := TrimDots(output);
    return if output == "" then "download" else output;
  }

  /** A name that is one plain path component: safe characters, no dot at either end. */
  predicate IsSafeName(s: string) {
    && 1 <= |s| <= 160
    && AllNameChars(s)
    && s[0] != '.' && s[|s| - 1] != '.'
  }

  lemma {:induction false} ReplacedFixed(s: string)
    requires AllNameChars(s)
    ensures Replaced(s) == s
  {
    if s != "" {
      ReplacedFixed(s[1..]);
      assert s == [s[0]] + s[1..];
    }
  }

  lemma DefaultIsSafe()
    ensures IsSafeName("download")
  {
  }

  lemma ReplacedNameChars(s: string)
    ensures AllNameChars(Replaced(s))
  {
    forall i | 0 <= i < |s| ensures IsNameChar(Replaced(s)[i]) {
      assert Replaced(s)[i] == SafeChar(s[i]);
    }
  }

  lemma SanitizedResult(filename: string)
    ensures IsSafeName(Sanitized(filename))
  {
    DefaultIsSafe();
    ReplacedNameChars(Shortened(filename));
  }

  lemma SafeIsFixed(filename: string)
    requires IsSafeName(filename)
    ensures Sanitized(filename) == filename
  {
    ReplacedFixed(filename);
  }

  /** Sanitising yields a safe name, and changes exactly the names that are not safe already. */
  lemma SanitizedIsSafe(filename: string)
    ensures IsSafeName(Sanitized(filename))
    ensures Sanitized(filename) == filename <==> IsSafeName(filename)
    ensures Sanitized(Sanitized(filename)) == Sanitized(filename)
  {
    SanitizedResult(filename);
    SafeIsFixed(Sanitized(filename));
    if IsSafeName(filename) {
      SafeIsFixed(filename);
    }
  }

  /** `rsplit_once` on a dot. */
  function SplitAtLastDot(s: string): (r: Option<(string, string)>)
    ensures r.Some? <==> '.' in s
    ensures r.Some? ==> '.' !in r.value.1 && s == r.value.0 + "." + r.value.1
  {
    if s == "" then None
    else if s[|s| - 1] == '.' then Some((s[..|s| - 1], ""))
    else match SplitAtLastDot(s[..|s| - 1])
      case None => None
      case Some((stem, extension)) => Some((stem, extension + [s[|s| - 1]]))
  }

  /** Stem and extension, the dot with the extension; the whole name when either would be empty. */
  function StemAndExtension(name: string): (r: (string, string))
    ensures name == r.0 + r.1
    ensures name != "" ==> r.0 != ""
  {
    match SplitAtLastDot(name)
    case Some((stem, extension)) => if stem != "" && extension != "" then (stem, "." + extension) else (name, "")
    case None => (name, "")
  }

  /** The k-th name tried for a download. */
  function Candidate(name: string, k: nat): string {
    if k == 0 then name
    else
      var (stem, extension) := StemAndExtension(name);
      stem + "-" + Decimal(k) + extension
  }

  lemma CancelAround(prefix: string, a: string, b: string, suffix: string)
    requires prefix + a + suffix == prefix + b + suffix
    ensures a == b
  {
    assert |a| == |b|;
    forall i | 0 <= i < |a| ensures a[i] == b[i] {
      assert (prefix + a + suffix)[|prefix| + i] == a[i];
      assert (prefix + b + suffix)[|prefix| + i] == b[i];
    }
  }

  /** No name is tried twice. */
  lemma CandidatesDistinct(name: string, i: nat, j: nat)
    requires i != j
    ensures Candidate(name, i) != Candidate(name, j)
  {
    var (stem, extension) := StemAndExtension(name);
    if i != 0 && j != 0 && Candidate(name, i) == Candidate(name, j) {
      CancelAround(stem + "-", Decimal(i), Decimal(j), extension);
      DecimalRoundTrip(i);
      DecimalRoundTrip(j);
    }
  }

  lemma NameCharsAppend(a: string, b: string)
    ensures AllNameChars(a + b) <==> AllNameChars(a) && AllNameChars(b)
  {
    assert forall i :: 0 <= i < |a| ==> (a + b)[i] == a[i];
    assert forall i :: 0 <= i < |b| ==> (a + b)[|a| + i] == b[i];
  }

  lemma DigitsAreNameChars(s: string)
    requires AllDigits(s)
    ensures AllNameChars(s)
  {
  }

  lemma CandidateIsComponent(name: string, k: nat)
    requires IsSafeName(name)
    ensures var c := Candidate(name, k);
            c != "" && c[0] != '.' && AllNameChars(c) && '/' !in c
  {
    var (stem, extension) := StemAndExtension(name);
    NameCharsAppend(stem, extension);
    DigitsAreNameChars(Decimal(k));
    NameCharsAppend(stem, "-");
    NameCharsAppend(stem + "-", Decimal(k));
    NameCharsAppend(stem + "-" + Decimal(k), extension);
    assert stem[0] == name[0];
  }

  // ---------- storing ----------

  datatype Entry = File(body: Bytes) | Other

  datatype IndexRecord = IndexRecord(filename: string, path: string, size: nat)

  datatype Record = Record(profile: string, filename: string, path: string, size: nat)

  datatype DownloadError = InvalidProfile | Unsupported

  type Files = map<string, Entry>

  const MAX_CANDIDATES: nat := 1000

  predicate IsValidProfile(profile: string) {
    profile != "" && forall i :: 0 <= i < |profile| ==> IsAsciiAlphanumeric(profile[i]) || profile[i] == '-' || profile[i] == '_'
  }

  function PathIn(root: string, name: string): string {
    root + "/" + name
  }

  function CandidatePath(root: string, name: string, k: nat): string {
    PathIn(root, Candidate(name, k))
  }

  /** The first candidate from k on whose path is free, or MAX_CANDIDATES. */
  function FirstFree(files: Files, root: string, name: string, k: nat): (r: nat)
    requires k <= MAX_CANDIDATES
    ensures k <= r <= MAX_CANDIDATES
    ensures forall i :: k <= i < r ==> CandidatePath(root, name, i) in files
    ensures r < MAX_CANDIDATES ==> CandidatePath(root, name, r) !in files
    decreases MAX_CANDIDATES - k
  {
    if k == MAX_CANDIDATES || CandidatePath(root, name, k) !in files then k
    else FirstFree(files, root, name, k + 1)
  }

  /** The entries directly inside the download folder. */
  function FolderEntries(files: Files, root: string): set<string> {
    set p | p in files && StartsWith(p, root + "/") && '/' !in p[|root| + 1..]
  }

  lemma PathsDistinct(root: string, name: string, i: nat, j: nat)
    requires i != j
    ensures CandidatePath(root, name, i) != CandidatePath(root, name, j)
  {
    CandidatesDistinct(name, i, j);
    assert CandidatePath(root, name, i)[|root| + 1..] == Candidate(name, i);
    assert CandidatePath(root, name, j)[|root| + 1..] == Candidate(name, j);
  }

  lemma PathInFolder(files: Files, root: string, name: string, i: nat)
    requires IsSafeName(name) && CandidatePath(root, name, i) in files
    ensures CandidatePath(root, name, i) in FolderEntries(files, root)
  {
    var p := CandidatePath(root, name, i);
    CandidateIsComponent(name, i);
    assert p[..|root| + 1] == root + "/" && p[|root| + 1..] == Candidate(name, i);
  }

  /** The path is not that of an earlier candidate. */
  lemma NotEarlier(root: string, name: string, n: nat, path: string)
    requires path == CandidatePath(root, name, n)
    ensures forall i :: 0 <= i < n ==> CandidatePath(root, name, i) != path
  {
    forall i | 0 <= i < n ensures CandidatePath(root, name, i) != path {
      PathsDistinct(root, name, i, n);
    }
  }

  /** Every member is one of the first n candidates. */
  predicate AreCandidates(paths: set<string>, root: string, name: string, n: nat) {
    forall p :: p in paths ==> exists i :: 0 <= i < n && p == CandidatePath(root, name, i)
  }

  lemma OneMorePath(paths: set<string>, root: string, name: string, n: nat, path: string)
    requires AreCandidates(paths, root, name, n) && path == CandidatePath(root, name, n)
    ensures AreCandidates(paths + {path}, root, name, n + 1) && |paths + {path}| == |paths| + 1
  {
    NotEarlier(root, name, n, path);
    assert path !in paths;
  }

  /** n taken candidates are n entries of the folder. */
  lemma {:induction false} TakenPaths(files: Files, root: string, name: string, n: nat) returns (paths: set<string>)
    requires IsSafeName(name)
    requires forall i :: 0 <= i < n ==> CandidatePath(root, name, i) in files
    ensures |paths| == n && paths <= FolderEntries(files, root)
    ensures AreCandidates(paths, root, name, n)
  {
    if n == 0 {
      paths := {};
    } else {
      var last := CandidatePath(root, name, n - 1);
      var before := TakenPaths(files, root, name, n - 1);
      OneMorePath(before, root, name, n - 1, last);
      PathInFolder(files, root, name, n - 1);
      paths := before + {last};
    }
  }

  /** A folder with fewer than a thousand entries always has a free candidate. */
  lemma RoomForCandidate(files: Files, root: string, name: string)
    requires IsSafeName(name) && |FolderEntries(files, root)| < MAX_CANDIDATES
    ensures FirstFree(files, root, name, 0) < MAX_CANDIDATES
  {
    var paths := TakenPaths(files, root, name, FirstFree(files, root, name, 0));
    assert FolderEntries(files, root) == paths + (FolderEntries(files, root) - paths);
  }

  // ---------- listing ----------

  /** The listing of one index record: its file with the present size, if it is still there. */
  function ListedOne(files: Files, profile: string, r: IndexRecord): seq<Record> {
    if r.path in files && files[r.path].File?
    then [Record(profile, r.filename, r.path, |files[r.path].body|)] else []
  }

  function Listed(files: Files, profile: string, index: seq<IndexRecord>): seq<Record> {
    if index == [] then [] else ListedOne(files, profile, index[0]) + Listed(files, profile, index[1..])
  }

  lemma ListedStep(files: Files, profile: string, index: seq<IndexRecord>, i: nat, listed: seq<Record>)
    requires i < |index|
    ensures listed + Listed(files, profile, index[i..])
         == listed + ListedOne(files, profile, index[i]) + Listed(files, profile, index[i + 1..])
  {
    assert index[i..][1..] == index[i + 1..];
    AppendAssociative(listed, ListedOne(files, profile, index[i]), Listed(files, profile, index[i + 1..]));
  }

  function Insert(r: Record, sorted: seq<Record>): seq<Record> {
    if sorted == [] || !Before(sorted[0].filename, r.filename) then [r] + sorted
    else [sorted[0]] + Insert(r, sorted[1..])
  }

  /** The library's stable sort by file name. */
  function SortByFilename(records: seq<Record>): seq<Record> {
    if records == [] then [] else Insert(records[0], SortByFilename(records[1..]))
  }

  predicate Ordered(records: seq<Record>) {
    forall i, j :: 0 <= i < j < |records| ==> !Before(records[j].filename, records[i].filename)
  }

  function Named(records: seq<Record>, filename: string): seq<Record> {
    if records == [] then []
    else (if records[0].filename == filename then [records[0]] else []) + Named(records[1..], filename)
  }

  lemma {:induction false} InsertKeeps(r: Record, sorted: seq<Record>)
    ensures multiset(Insert(r, sorted)) == multiset{r} + multiset(sorted)
  {
    if sorted != [] && Before(sorted[0].filename, r.filename) {
      InsertKeeps(r, sorted[1..]);
      assert sorted == [sorted[0]] + sorted[1..];
    }
  }

  /** Not before is transitive: the order by name is total. */
  lemma NotBefore(a: string, b: string, c: string)
    requires !Before(b, a) && !Before(c, b)
    ensures !Before(c, a)
  {
    BeforeTotal(a, b);
    BeforeTotal(b, c);
    BeforeTotal(a, c);
    if a != b && b != c {
      BeforeTransitive(a, b, c);
    }
  }

  lemma {:induction false} InsertOrdered(r: Record, sorted: seq<Record>)
    requires Ordered(sorted)
    ensures Ordered(Insert(r, sorted))
  {
    if sorted != [] {
      var head, tail := sorted[0], sorted[1..];
      BeforeTotal(head.filename, r.filename);
      if Before(head.filename, r.filename) {
        InsertOrdered(r, tail);
        InsertKeeps(r, tail);
        forall i | 0 <= i < |Insert(r, tail)| ensures !Before(Insert(r, tail)[i].filename, head.filename) {
          assert Insert(r, tail)[i] in multiset(Insert(r, tail));
          assert Insert(r, tail)[i] == r || Insert(r, tail)[i] in tail;
        }
      } else {
        forall i | 0 <= i < |sorted| ensures !Before(sorted[i].filename, r.filename) {
          if i > 0 {
            NotBefore(r.filename, head.filename, sorted[i].filename);
          }
        }
      }
    }
  }

  lemma NamedCons(r: Record, rest: seq<Record>, filename: string)
    ensures Named([r] + rest, filename) == (if r.filename == filename then [r] else []) + Named(rest, filename)
  {
    assert ([r] + rest)[1..] == rest;
  }

  lemma {:induction false} InsertNamed(r: Record, sorted: seq<Record>, filename: string)
    ensures Named(Insert(r, sorted), filename) == Named([r] + sorted, filename)
  {
    NamedCons(r, sorted, filename);
    if sorted != [] && Before(sorted[0].filename, r.filename) {
      BeforeTotal(sorted[0].filename, r.filename);
      InsertNamed(r, sorted[1..], filename);
      NamedCons(r, sorted[1..], filename);
      NamedCons(sorted[0], Insert(r, sorted[1..]), filename);
    }
  }

  /** Sorting orders the records by name, keeps each of them, and keeps equal names in their order. */
  lemma {:induction false} SortIsStable(records: seq<Record>, filename: string)
    ensures Ordered(SortByFilename(records))
    ensures multiset(SortByFilename(records)) == multiset(records)
    ensures Named(SortByFilename(records), filename) == Named(records, filename)
  {
    if records != [] {
      SortIsStable(records[1..], filename);
      var sorted := SortByFilename(records[1..]);
      InsertKeeps(records[0], sorted);
      InsertOrdered(records[0], sorted);
      InsertNamed(records[0], sorted, filename);
      NamedCons(records[0], sorted, filename);
      assert records == [records[0]] + records[1..];
    }
  }

  // ---------- the state root ----------

  datatype Disk = Disk(files: Files, indexes: map<string, seq<IndexRecord>>) {
    function Index(profile: string): seq<IndexRecord> {
      if profile in indexes then indexes[profile] else []
    }
  }

  datatype Request = Request(profile: string, filename: string, body: Bytes)

  /** Where a request goes: the index record of the file to create. */
  type Placer = (Files, Request) -> Result<IndexRecord, DownloadError>

  function Allocate(root: string, files: Files, request: Request): Result<IndexRecord, DownloadError> {
    if !IsValidProfile(request.profile) then Err(InvalidProfile)
    else
      var name := Sanitized(request.filename);
      var k := FirstFree(files, root, name, 0);
      if k == MAX_CANDIDATES then Err(Unsupported)
      else Ok(IndexRecord(Candidate(name, k), CandidatePath(root, name, k), |request.body|))
  }

  /** The allocator of one download folder. */
  function Folder(root: string): Placer {
    (files: Files, request: Request) => Allocate(root, files, request)
  }

  function Store(place: Placer, disk: Disk, request: Request): (Disk, Result<string, DownloadError>) {
    match place(disk.files, request)
    case Err(error) => (disk, Err(error))
    case Ok(record) =>
      (Disk(
         disk.files[record.path := File(request.body)],
         disk.indexes[request.profile := disk.Index(request.profile) + [record]]),
       Ok(record.path))
  }

  class StateRoot {
    const downloadsRoot: string
    var files: Files
    var indexes: map<string, seq<IndexRecord>>

    constructor (downloadsRoot: string, disk: Disk)
      ensures this.downloadsRoot == downloadsRoot && Now() == disk
    {
      this.downloadsRoot, files, indexes := downloadsRoot, disk.files, disk.indexes;
    }

    ghost function Now(): Disk
      reads this
    {
      Disk(files, indexes)
    }

    method AppendDownloadRecord(profile: string, filename: string, path: string, size: nat)
      modifies `indexes
      ensures indexes == old(indexes)[profile := old(Now()).Index(profile) + [IndexRecord(filename, path, size)]]
    {
      var index := if profile in indexes then indexes[profile] else [];
      indexes := indexes[profile := index + [IndexRecord(filename, path, size)]];
    }

    method StoreDownload(profile: string, filename: string, body: Bytes) returns (r: Result<string, DownloadError>)
      modifies this
      ensures (Now(), r) == Store(Folder(downloadsRoot), old(Now()), Request(profile, filename, body))
    {
      if !IsValidProfile(profile) {
        return Err(InvalidProfile);
      }
      var name := SanitizedFilename(filename);
      var k := 0;
      while k < MAX_CANDIDATES
        invariant 0 <= k <= MAX_CANDIDATES && Now() == old(Now())
        invariant FirstFree(files, downloadsRoot, name, 0) == FirstFree(files, downloadsRoot, name, k)
      {
        var candidate := Candidate(name, k);
        var path := PathIn(downloadsRoot, candidate);
        if path !in files {
          files := files[path := File(body)];
          AppendDownloadRecord(profile, candidate, path, |body|);
          return Ok(path);
        }
        k := k + 1;
      }
      return Err(Unsupported);
    }

    method Downloads(profile: string) returns (r: Result<seq<Record>, DownloadError>)
      ensures r == if IsValidProfile(profile) then Ok(SortByFilename(Listed(files, profile, Now().Index(profile))))
                   else Err(InvalidProfile)
    {
      if !IsValidProfile(profile) {
        return Err(InvalidProfile);
      }
      if profile !in indexes {
        return Ok([]);
      }
      var index := indexes[profile];
      var downloads: seq<Record> := [];
      assert index[0..] == index;
      for i := 0 to |index|
        invariant Listed(files, profile, index) == downloads + Listed(files, profile, index[i..])
      {
        var record := index[i];
        ListedStep(files, profile, index, i, downloads);
        assert downloads + [] == downloads;
        if record.path !in files || !files[record.path].File? {
          continue;
        }
        downloads := downloads + [Record(profile, record.filename, record.path, |files[record.path].body|)];
      }
      assert downloads == Listed(files, profile, index);
      return Ok(SortByFilename(downloads));
    }
  }

  // ---------- one store ----------

  /** What an allocator must do: name a fresh path in the folder, and the body's size. */
  ghost predicate PlacesIn(place: Placer, root: string) {
    forall files: Files, request: Request :: place(files, request).Ok? ==>
      var record := place(files, request).value;
      record.path !in files && record.size == |request.body| && IsFileName(root, record.path, record.filename)
  }

  predicate IsFileName(root: string, path: string, name: string) {
    path == PathIn(root, name) && '/' !in name && name != ""
  }

  lemma FolderPlaces(root: string)
    ensures PlacesIn(Folder(root), root)
  {
    forall files: Files, request: Request | Folder(root)(files, request).Ok?
      ensures var record := Folder(root)(files, request).value;
              record.path !in files && record.size == |request.body| && IsFileName(root, record.path, record.filename)
    {
      var name := Sanitized(request.filename);
      SanitizedIsSafe(request.filename);
      CandidateIsComponent(name, FirstFree(files, root, name, 0));
    }
  }

  /** The k-th candidate is the first free one. */
  predicate IsFirstFree(files: Files, root: string, name: string, k: nat) {
    CandidatePath(root, name, k) !in files && forall i :: 0 <= i < k ==> CandidatePath(root, name, i) in files
  }

  /**
   * With a valid profile and fewer than a thousand entries in the folder, a download is always
   * given the first free candidate of its sanitised name.
   */
  lemma AllocateSucceeds(root: string, files: Files, request: Request)
    requires IsValidProfile(request.profile) && |FolderEntries(files, root)| < MAX_CANDIDATES
    ensures var r := Allocate(root, files, request);
            r.Ok? && exists k: nat ::
              IsFirstFree(files, root, Sanitized(request.filename), k)
              && r.value == IndexRecord(Candidate(Sanitized(request.filename), k), CandidatePath(root, Sanitized(request.filename), k), |request.body|)
  {
    var name := Sanitized(request.filename);
    SanitizedIsSafe(request.filename);
    RoomForCandidate(files, root, name);
    assert IsFirstFree(files, root, name, FirstFree(files, root, name, 0));
  }

  /** It is refused exactly for an invalid profile or when all thousand names are taken. */
  lemma AllocateRefusedIff(root: string, files: Files, request: Request)
    ensures Allocate(root, files, request) == Err(InvalidProfile) <==> !IsValidProfile(request.profile)
    ensures Allocate(root, files, request) == Err(Unsupported) <==>
            && IsValidProfile(request.profile)
            && forall i :: 0 <= i < MAX_CANDIDATES ==> CandidatePath(root, Sanitized(request.filename), i) in files
  {
  }

  // ---------- whole runs ----------

  function Run(place: Placer, disk: Disk, requests: seq<Request>): Disk
    decreases |requests|
  {
    if requests == [] then disk else Run(place, Store(place, disk, requests[0]).0, requests[1..])
  }

  /** The successful stores of a profile over a run, in order: path and body. */
  function Stored(place: Placer, disk: Disk, requests: seq<Request>, profile: string): seq<(string, Bytes)>
    decreases |requests|
  {
    if requests == [] then []
    else
      var (next, r) := Store(place, disk, requests[0]);
      (if r.Ok? && requests[0].profile == profile then [(r.value, requests[0].body)] else [])
      + Stored(place, next, requests[1..], profile)
  }

  /** A stored file is never written again. */
  lemma {:induction false} RunKeepsFiles(place: Placer, root: string, disk: Disk, requests: seq<Request>, path: string)
    requires PlacesIn(place, root) && path in disk.files
    ensures path in Run(place, disk, requests).files && Run(place, disk, requests).files[path] == disk.files[path]
    decreases |requests|
  {
    if requests != [] {
      RunKeepsFiles(place, root, Store(place, disk, requests[0]).0, requests[1..], path);
    }
  }

  /** The index records that a list of stored files should have. */
  predicate Records(root: string, index: seq<IndexRecord>, stored: seq<(string, Bytes)>) {
    && |index| == |stored|
    && forall i :: 0 <= i < |index| ==>
         && index[i].path == stored[i].0 && index[i].size == |stored[i].1|
         && IsFileName(root, index[i].path, index[i].filename)
  }

  lemma StoreIndexes(place: Placer, root: string, disk: Disk, request: Request, profile: string)
    requires PlacesIn(place, root)
    ensures var (next, r) := Store(place, disk, request);
            Grew(root, disk.Index(profile), next.Index(profile),
                 if r.Ok? && request.profile == profile then [(r.value, request.body)] else [])
  {
  }

  lemma RecordsAppend(root: string, a: seq<IndexRecord>, b: seq<IndexRecord>, c: seq<(string, Bytes)>, d: seq<(string, Bytes)>)
    requires Records(root, a, c) && Records(root, b, d)
    ensures Records(root, a + b, c + d)
  {
  }

  predicate Grew(root: string, before: seq<IndexRecord>, after: seq<IndexRecord>, stored: seq<(string, Bytes)>) {
    before <= after && Records(root, after[|before|..], stored)
  }

  lemma GrewTwice(root: string, before: seq<IndexRecord>, middle: seq<IndexRecord>, after: seq<IndexRecord>, c: seq<(string, Bytes)>, d: seq<(string, Bytes)>)
    requires Grew(root, before, middle, c) && Grew(root, middle, after, d)
    ensures Grew(root, before, after, c + d)
  {
    assert after[|before|..] == middle[|before|..] + after[|middle|..];
    RecordsAppend(root, middle[|before|..], after[|middle|..], c, d);
  }

  lemma {:induction false} RunIndexes(place: Placer, root: string, disk: Disk, requests: seq<Request>, profile: string)
    requires PlacesIn(place, root)
    ensures Grew(root, disk.Index(profile), Run(place, disk, requests).Index(profile), Stored(place, disk, requests, profile))
    decreases |requests|
  {
    if requests != [] {
      var (next, r) := Store(place, disk, requests[0]);
      StoreIndexes(place, root, disk, requests[0], profile);
      RunIndexes(place, root, next, requests[1..], profile);
      GrewTwice(root, disk.Index(profile), next.Index(profile), Run(place, disk, requests).Index(profile),
        if r.Ok? && requests[0].profile == profile then [(r.value, requests[0].body)] else [],
        Stored(place, next, requests[1..], profile));
    }
  }

  /** Stored files were not there before, hold their bodies after, and have different paths. */
  predicate NewAndKept(before: Files, after: Files, stored: seq<(string, Bytes)>) {
    && (forall i :: 0 <= i < |stored| ==>
          stored[i].0 !in before && stored[i].0 in after && after[stored[i].0] == File(stored[i].1))
    && (forall i, j :: 0 <= i < j < |stored| ==> stored[i].0 != stored[j].0)
  }

  lemma NewAndKeptCons(before: Files, next: Files, after: Files, path: string, body: Bytes, rest: seq<(string, Bytes)>)
    requires path !in before && next == before[path := File(body)]
    requires path in after && after[path] == File(body)
    requires NewAndKept(next, after, rest)
    ensures NewAndKept(before, after, [(path, body)] + rest)
    ensures NewAndKept(before, after, rest)
  {
  }

  lemma StoreWrites(place: Placer, root: string, disk: Disk, request: Request)
    requires PlacesIn(place, root)
    ensures var (next, r) := Store(place, disk, request);
            if r.Ok? then r.value !in disk.files && next.files == disk.files[r.value := File(request.body)]
            else next == disk
  {
  }

  lemma {:induction false} RunStores(place: Placer, root: string, disk: Disk, requests: seq<Request>, profile: string)
    requires PlacesIn(place, root)
    ensures NewAndKept(disk.files, Run(place, disk, requests).files, Stored(place, disk, requests, profile))
    decreases |requests|
  {
    if requests != [] {
      var (next, r) := Store(place, disk, requests[0]);
      var rest, after := Stored(place, next, requests[1..], profile), Run(place, next, requests[1..]).files;
      StoreWrites(place, root, disk, requests[0]);
      RunStores(place, root, next, requests[1..], profile);
      assert [] + rest == rest;
      if r.Ok? {
        RunKeepsFiles(place, root, next, requests[1..], r.value);
        NewAndKeptCons(disk.files, next.files, after, r.value, requests[0].body, rest);
      }
    }
  }

  /**
   * Over any run on one folder, a profile's index grows by exactly its successful stores, in order;
   * they have pairwise different new paths, and each body is still at its path at the end, whatever
   * was stored later.
   */
  lemma RunRecordsStores(root: string, disk: Disk, requests: seq<Request>, profile: string)
    ensures var after, stored := Run(Folder(root), disk, requests), Stored(Folder(root), disk, requests, profile);
            && Grew(root, disk.Index(profile), after.Index(profile), stored)
            && NewAndKept(disk.files, after.files, stored)
  {
    FolderPlaces(root);
    RunIndexes(Folder(root), root, disk, requests, profile);
    RunStores(Folder(root), root, disk, requests, profile);
  }

  lemma {:induction false} ListedAll(files: Files, profile: string, index: seq<IndexRecord>)
    requires forall i :: 0 <= i < |index| ==>
               index[i].path in files && files[index[i].path].File? && |files[index[i].path].body| == index[i].size
    ensures |Listed(files, profile, index)| == |index|
    ensures forall i :: 0 <= i < |index| ==>
              Listed(files, profile, index)[i] == Record(profile, index[i].filename, index[i].path, index[i].size)
  {
    if index != [] {
      ListedAll(files, profile, index[1..]);
    }
  }

  /** The record a listing should hold of a stored file: named by what follows the folder in its path. */
  function RecordOf(root: string, profile: string, path: string, body: Bytes): Record
    requires |root| < |path|
  {
    Record(profile, path[|root| + 1..], path, |body|)
  }

  predicate InFolder(root: string, stored: seq<(string, Bytes)>) {
    forall i :: 0 <= i < |stored| ==> |root| < |stored[i].0|
  }

  function RecordsOf(root: string, profile: string, stored: seq<(string, Bytes)>): (r: seq<Record>)
    requires InFolder(root, stored)
    ensures |r| == |stored|
  {
    seq(|stored|, i requires 0 <= i < |stored| => RecordOf(root, profile, stored[i].0, stored[i].1))
  }

  /** The unsorted list after a run is one record per successful store, in the order of the stores. */
  lemma ListedAfterRun(root: string, files: Files, requests: seq<Request>, profile: string)
    ensures var disk := Disk(files, map[]);
            var after, stored := Run(Folder(root), disk, requests), Stored(Folder(root), disk, requests, profile);
            InFolder(root, stored)
            && Listed(after.files, profile, after.Index(profile)) == RecordsOf(root, profile, stored)
  {
    var disk := Disk(files, map[]);
    var after, stored := Run(Folder(root), disk, requests), Stored(Folder(root), disk, requests, profile);
    var index := after.Index(profile);
    RunRecordsStores(root, disk, requests, profile);
    assert index[0..] == index;
    ListedAll(after.files, profile, index);
    forall i | 0 <= i < |index| ensures |root| < |stored[i].0| && index[i].filename == stored[i].0[|root| + 1..] {
      assert IsFileName(root, index[i].path, index[i].filename);
    }
  }

  /** These records, sorted by name, and those of one name in the order of the stores. */
  ghost predicate IsListing(returned: seq<Record>, expected: seq<Record>) {
    && Ordered(returned)
    && multiset(returned) == multiset(expected)
    && forall filename :: Named(returned, filename) == Named(expected, filename)
  }

  lemma SortIsListing(records: seq<Record>)
    ensures IsListing(SortByFilename(records), records)
  {
    forall filename ensures Named(SortByFilename(records), filename) == Named(records, filename) {
      SortIsStable(records, filename);
    }
    SortIsStable(records, "");
  }

  /**
   * From an empty index, what a profile's listing returns after any run: one record per successful
   * store, no other, sorted by name.
   */
  lemma ListingAfterRun(root: string, files: Files, requests: seq<Request>, profile: string)
    ensures var disk := Disk(files, map[]);
            var after, stored := Run(Folder(root), disk, requests), Stored(Folder(root), disk, requests, profile);
            InFolder(root, stored)
            && IsListing(SortByFilename(Listed(after.files, profile, after.Index(profile))), RecordsOf(root, profile, stored))
  {
    var after := Run(Folder(root), Disk(files, map[]), requests);
    ListedAfterRun(root, files, requests, profile);
    SortIsListing(Listed(after.files, profile, after.Index(profile)));
  }

  // ---------- runs with deletions ----------

  /** A download is stored, or a file is deleted behind the daemon's back. */
  datatype Event = Saved(request: Request) | Deleted(path: string)

  function Apply(place: Placer, disk: Disk, e: Event): Disk {
    match e
    case Saved(request) => Store(place, disk, request).0
    case Deleted(path) => disk.(files := disk.files - {path})
  }

  function History(place: Placer, disk: Disk, events: seq<Event>): Disk
    decreases |events|
  {
    if events == [] then disk else History(place, Apply(place, disk, events[0]), events[1..])
  }

  /** What one event stores for a profile: path and body. */
  function SavedOne(place: Placer, disk: Disk, e: Event, profile: string): seq<(string, Bytes)> {
    match e
    case Saved(request) =>
      var r := Store(place, disk, request).1;
      if r.Ok? && request.profile == profile then [(r.value, request.body)] else []
    case Deleted(_) => []
  }

  /** The successful stores of a profile over a run, in order. */
  function Saves(place: Placer, disk: Disk, events: seq<Event>, profile: string): seq<(string, Bytes)>
    decreases |events|
  {
    if events == [] then []
    else SavedOne(place, disk, events[0], profile) + Saves(place, Apply(place, disk, events[0]), events[1..], profile)
  }

  lemma ApplyIndexes(place: Placer, root: string, disk: Disk, e: Event, profile: string)
    requires PlacesIn(place, root)
    ensures Grew(root, disk.Index(profile), Apply(place, disk, e).Index(profile), SavedOne(place, disk, e, profile))
  {
    match e
    case Saved(request) => StoreIndexes(place, root, disk, request, profile);
    case Deleted(_) =>
  }

  /** Whatever is deleted, the index still grows by exactly the successful stores. */
  lemma {:induction false} HistoryIndexes(place: Placer, root: string, disk: Disk, events: seq<Event>, profile: string)
    requires PlacesIn(place, root)
    ensures Grew(root, disk.Index(profile), History(place, disk, events).Index(profile), Saves(place, disk, events, profile))
    decreases |events|
  {
    if events != [] {
      var next := Apply(place, disk, events[0]);
      ApplyIndexes(place, root, disk, events[0], profile);
      HistoryIndexes(place, root, next, events[1..], profile);
      GrewTwice(root, disk.Index(profile), next.Index(profile), History(place, disk, events).Index(profile),
        SavedOne(place, disk, events[0], profile), Saves(place, next, events[1..], profile));
    }
  }

  predicate IsPresent(files: Files, path: string) {
    path in files && files[path].File?
  }

  /** One record per store whose path is a file now, with the size the file has now. */
  function PresentRecords(root: string, profile: string, files: Files, saves: seq<(string, Bytes)>): seq<Record>
    requires InFolder(root, saves)
  {
    if saves == [] then []
    else
      var path := saves[0].0;
      (if IsPresent(files, path) then [RecordOf(root, profile, path, files[path].body)] else [])
      + PresentRecords(root, profile, files, saves[1..])
  }

  lemma {:induction false} ListedIsPresent(
    root: string, profile: string, files: Files, index: seq<IndexRecord>, saves: seq<(string, Bytes)>)
    requires Records(root, index, saves)
    ensures InFolder(root, saves)
    ensures Listed(files, profile, index) == PresentRecords(root, profile, files, saves)
  {
    if index != [] {
      var rest := saves[1..];
      assert forall i :: 0 <= i < |rest| ==> index[1..][i] == index[i + 1] && rest[i] == saves[i + 1];
      ListedIsPresent(root, profile, files, index[1..], rest);
      assert IsFileName(root, index[0].path, index[0].filename);
      assert saves[0].0[|root| + 1..] == index[0].filename;
    }
  }

  /** What the unsorted listing is after any run of stores and deletions. */
  lemma ListedAfterHistory(root: string, files: Files, events: seq<Event>, profile: string)
    ensures var disk := Disk(files, map[]);
            var after, saves := History(Folder(root), disk, events), Saves(Folder(root), disk, events, profile);
            InFolder(root, saves)
            && Listed(after.files, profile, after.Index(profile)) == PresentRecords(root, profile, after.files, saves)
  {
    var disk := Disk(files, map[]);
    var after, saves := History(Folder(root), disk, events), Saves(Folder(root), disk, events, profile);
    FolderPlaces(root);
    HistoryIndexes(Folder(root), root, disk, events, profile);
    assert after.Index(profile)[0..] == after.Index(profile);
    ListedIsPresent(root, profile, after.files, after.Index(profile), saves);
  }

  /** No two records are of one path. */
  predicate OnePerFile(records: seq<Record>) {
    forall i, j :: 0 <= i < j < |records| ==> records[i].path != records[j].path
  }

  /** No path that is a file now was stored at twice. */
  predicate NoneReused(files: Files, saves: seq<(string, Bytes)>) {
    forall i, j :: 0 <= i < j < |saves| && saves[i].0 == saves[j].0 ==> !IsPresent(files, saves[i].0)
  }

  predicate Lists(records: seq<Record>, path: string) {
    exists i :: 0 <= i < |records| && records[i].path == path
  }

  predicate SavedAt(saves: seq<(string, Bytes)>, path: string) {
    exists i :: 0 <= i < |saves| && saves[i].0 == path
  }

  lemma ListsCons(head: Record, rest: seq<Record>, path: string)
    ensures Lists([head] + rest, path) <==> head.path == path || Lists(rest, path)
    ensures OnePerFile([head] + rest) <==> OnePerFile(rest) && !Lists(rest, head.path)
  {
    var all := [head] + rest;
    assert all[0] == head && forall i :: 0 <= i < |rest| ==> all[i + 1] == rest[i];
    if Lists(all, path) && head.path != path {
      var i :| 0 <= i < |all| && all[i].path == path;
      assert rest[i - 1].path == path;
    }
  }

  lemma ReusedCons(files: Files, head: (string, Bytes), rest: seq<(string, Bytes)>, path: string)
    ensures SavedAt([head] + rest, path) <==> head.0 == path || SavedAt(rest, path)
    ensures NoneReused(files, [head] + rest) <==> NoneReused(files, rest) && (IsPresent(files, head.0) ==> !SavedAt(rest, head.0))
  {
    var all := [head] + rest;
    assert all[0] == head && forall i :: 0 <= i < |rest| ==> all[i + 1] == rest[i];
    if SavedAt(all, path) && head.0 != path {
      var i :| 0 <= i < |all| && all[i].0 == path;
      assert rest[i - 1].0 == path;
    }
  }

  lemma {:induction false} PresentListed(root: string, profile: string, files: Files, saves: seq<(string, Bytes)>, path: string)
    requires InFolder(root, saves)
    ensures Lists(PresentRecords(root, profile, files, saves), path) <==> IsPresent(files, path) && SavedAt(saves, path)
  {
    if saves != [] {
      var head, rest := saves[0], saves[1..];
      var records := PresentRecords(root, profile, files, rest);
      PresentListed(root, profile, files, rest, path);
      ReusedCons(files, head, rest, path);
      assert [] + records == records;
      assert saves == [head] + rest;
      if IsPresent(files, head.0) {
        ListsCons(RecordOf(root, profile, head.0, files[head.0].body), records, path);
      }
    }
  }

  lemma {:induction false} OnePerFileIff(root: string, profile: string, files: Files, saves: seq<(string, Bytes)>)
    requires InFolder(root, saves)
    ensures OnePerFile(PresentRecords(root, profile, files, saves)) <==> NoneReused(files, saves)
  {
    if saves != [] {
      var head, rest := saves[0], saves[1..];
      var records := PresentRecords(root, profile, files, rest);
      OnePerFileIff(root, profile, files, rest);
      ReusedCons(files, head, rest, "");
      PresentListed(root, profile, files, rest, head.0);
      assert [] + records == records;
      assert saves == [head] + rest;
      if IsPresent(files, head.0) {
        ListsCons(RecordOf(root, profile, head.0, files[head.0].body), records, "");
      }
    }
  }

  lemma AtMostOnce(a: seq<Record>, x: Record)
    requires OnePerFile(a)
    ensures multiset(a)[x] <= 1
  {
    if x in a {
      var m :| 0 <= m < |a| && a[m] == x;
      var front, back := a[..m], a[m + 1..];
      assert a == front + [x] + back;
      assert x !in front && x !in back;
    }
  }

  lemma AtLeastTwice(b: seq<Record>, i: nat, j: nat)
    requires i < j < |b| && b[i] == b[j]
    ensures multiset(b)[b[i]] >= 2
  {
    assert b == b[..j] + b[j..];
    assert b[..j][i] == b[i] && b[j..][0] == b[j];
    assert b[i] in multiset(b[..j]) && b[i] in multiset(b[j..]);
  }

  lemma SamePathSameRecord(a: seq<Record>, x: Record, y: Record)
    requires OnePerFile(a) && x in a && y in a && x.path == y.path
    ensures x == y
  {
  }

  lemma DifferentPaths(a: seq<Record>, b: seq<Record>, i: nat, j: nat)
    requires multiset(a) == multiset(b) && OnePerFile(a) && i < j < |b|
    ensures b[i].path != b[j].path
  {
    assert b[i] in multiset(b) && b[j] in multiset(b);
    if b[i].path == b[j].path {
      SamePathSameRecord(a, b[i], b[j]);
      AtLeastTwice(b, i, j);
      AtMostOnce(a, b[i]);
    }
  }

  lemma SortKeepsOnePerFile(a: seq<Record>, b: seq<Record>)
    requires multiset(a) == multiset(b) && OnePerFile(a)
    ensures OnePerFile(b)
  {
    forall i, j | 0 <= i < j < |b| ensures b[i].path != b[j].path {
      DifferentPaths(a, b, i, j);
    }
  }

  /**
   * With deletions between stores, what the listing returns has one record per file exactly when no
   * path that is still a file was stored at twice.
   */
  lemma ListingOnePerFileIff(root: string, files: Files, events: seq<Event>, profile: string)
    ensures var disk := Disk(files, map[]);
            var after := History(Folder(root), disk, events);
            OnePerFile(SortByFilename(Listed(after.files, profile, after.Index(profile))))
            <==> NoneReused(after.files, Saves(Folder(root), disk, events, profile))
  {
    var disk := Disk(files, map[]);
    var after, saves := History(Folder(root), disk, events), Saves(Folder(root), disk, events, profile);
    var listed := Listed(after.files, profile, after.Index(profile));
    ListedAfterHistory(root, files, events, profile);
    OnePerFileIff(root, profile, after.files, saves);
    SortIsStable(listed, "");
    if OnePerFile(listed) {
      SortKeepsOnePerFile(listed, SortByFilename(listed));
    }
    if OnePerFile(SortByFilename(listed)) {
      SortKeepsOnePerFile(SortByFilename(listed), listed);
    }
  }

  lemma SameNameSamePlace(root: string, files: Files, request: Request, again: Request)
    requires again.profile == request.profile && again.filename == request.filename
    requires Allocate(root, files, request).Ok?
    ensures Allocate(root, files, again) == Ok(Allocate(root, files, request).value.(size := |again.body|))
  {
  }

  /** A file stored, deleted and stored again under its name is listed twice, both times with the new size. */
  lemma StoredAgainListedTwice(root: string, files: Files, request: Request, again: Request)
    requires again.profile == request.profile && again.filename == request.filename
    requires Allocate(root, files, request).Ok?
    ensures var path := Allocate(root, files, request).value.path;
            var after := History(Folder(root), Disk(files, map[]), [Saved(request)] + ([Deleted(path)] + ([Saved(again)] + [])));
            var listed := Listed(after.files, request.profile, after.Index(request.profile));
            && |listed| == 2 && listed[0] == listed[1]
            && listed[0].path == path && listed[0].size == |again.body|
  {
    var place, disk, record := Folder(root), Disk(files, map[]), Allocate(root, files, request).value;
    var path, profile := record.path, request.profile;
    FolderPlaces(root);
    assert place(files, request) == Ok(record) && path !in files;
    SameNameSamePlace(root, files, request, again);
    var first := Apply(place, disk, Saved(request));
    var second := Apply(place, first, Deleted(path));
    assert second.files == files;
    var third := Apply(place, second, Saved(again));
    HistoryStep(place, disk, Saved(request), [Deleted(path)] + ([Saved(again)] + []));
    HistoryStep(place, first, Deleted(path), [Saved(again)] + []);
    HistoryStep(place, second, Saved(again), []);
    var index := third.Index(profile);
    assert index == [record] + [record.(size := |again.body|)];
    assert third.files[path] == File(again.body);
    TwoListed(third.files, profile, record, record.(size := |again.body|));
  }

  lemma HistoryStep(place: Placer, disk: Disk, e: Event, events: seq<Event>)
    ensures History(place, disk, [e] + events) == History(place, Apply(place, disk, e), events)
  {
    assert ([e] + events)[1..] == events;
  }

  lemma TwoListed(files: Files, profile: string, a: IndexRecord, b: IndexRecord)
    requires IsPresent(files, a.path) && a.path == b.path
    ensures Listed(files, profile, [a] + [b]) == ListedOne(files, profile, a) + ListedOne(files, profile, b)
  {
    assert ([a] + [b])[1..] == [b];
    assert Listed(files, profile, [b]) == ListedOne(files, profile, b) + Listed(files, profile, []);
  }
}
