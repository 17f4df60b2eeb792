/** The fixture directory (scripts/gcp/common.ts): recording numbers the files, replay reads them back in file-name
    order and checks each request against the next one. */
module FixtureReplay {
  import opened Options
  import opened Sorting
  import opened Json
  import opened RecordedRequest
  import Text

  // ---- File names: a four-digit index in front ----

  /** `s.padStart(width, '0')` */
  function PadStart(s: string, width: nat): string
    decreases width - |s|
  {
    if |s| >= width then s else PadStart("0" + s, width)
  }

  function FileName(index: nat, slug: string): string { PadStart(Digits(index), 4) + ("-" + slug + ".json") }

  /** The last `width` decimal digits. */
  function Padded(i: nat, width: nat): (s: string)
    ensures |s| == width
  {
    if width == 0 then "" else Padded(i / 10, width - 1) + [DigitChar(i % 10)]
  }

  function Pow10(n: nat): (p: nat)
    ensures p >= 1
  {
    if n == 0 then 1 else 10 * Pow10(n - 1)
  }

  lemma {:induction false} PadStartSnoc(s: string, d: char, width: nat)
    requires width >= 1
    ensures PadStart(s + [d], width) == PadStart(s, width - 1) + [d]
    decreases width - |s|
  {
    if |s| + 1 < width {
      assert "0" + (s + [d]) == ("0" + s) + [d];
      PadStartSnoc("0" + s, d, width);
    }
  }

  lemma {:induction false} PadStartEmpty(width: nat)
    ensures PadStart("", width) == Padded(0, width)
  {
    if width > 0 {
      PadStartEmpty(width - 1);
      PadStartSnoc("", '0', width);
      assert "0" + "" == "" + "0";
    }
  }

  lemma {:induction false} PadStartDigits(i: nat, width: nat)
    requires 1 <= width && i < Pow10(width)
    ensures PadStart(Digits(i), width) == Padded(i, width)
  {
    if i < 10 {
      assert Digits(i) == "" + [DigitChar(i)];
      PadStartSnoc("", DigitChar(i), width);
      PadStartEmpty(width - 1);
      assert i / 10 == 0 && i % 10 == i;
    } else {
      assert Pow10(1) == 10 * Pow10(0);
      PadStartSnoc(Digits(i / 10), DigitChar(i % 10), width);
      PadStartDigits(i / 10, width - 1);
    }
  }

  lemma {:induction false} LongerTexts(p: string, q: string, x: string, y: string)
    requires |p| == |q| && p != q && Text.Leq(p, q)
    ensures Text.Leq(p + x, q + y) && !Text.Leq(q + y, p + x)
  {
    assert p == [p[0]] + p[1..] && q == [q[0]] + q[1..];
    assert (p + x)[0] == p[0] && (q + y)[0] == q[0];
    if p[0] == q[0] {
      assert (p + x)[1..] == p[1..] + x && (q + y)[1..] == q[1..] + y;
      LongerTexts(p[1..], q[1..], x, y);
    }
  }

  /** On numbers of the same width, text order is numeric order. */
  lemma {:induction false} PaddedOrder(i: nat, j: nat, width: nat)
    requires i < j < Pow10(width)
    ensures Text.Leq(Padded(i, width), Padded(j, width)) && Padded(i, width) != Padded(j, width)
  {
    var p, q, c, d := Padded(i / 10, width - 1), Padded(j / 10, width - 1), DigitChar(i % 10), DigitChar(j % 10);
    if i / 10 < j / 10 {
      PaddedOrder(i / 10, j / 10, width - 1);
      LongerTexts(p, q, [c], [d]);
    } else {
      assert i / 10 == j / 10 && i % 10 < j % 10;
      Text.LeqSamePrefix(p, [c], [d]);
      assert (p + [c])[|p|] == c && (p + [d])[|p|] == d;
    }
  }

  lemma FileNameOrder(i: nat, j: nat, slugI: string, slugJ: string)
    requires i < j <= 9999
    ensures Text.Leq(FileName(i, slugI), FileName(j, slugJ)) && !Text.Leq(FileName(j, slugJ), FileName(i, slugI))
  {
    assert Pow10(4) == 10 * Pow10(3) == 100 * Pow10(2) == 1000 * Pow10(1) == 10000 * Pow10(0);
    PadStartDigits(i, 4);
    PadStartDigits(j, 4);
    PaddedOrder(i, j, 4);
    LongerTexts(Padded(i, 4), Padded(j, 4), "-" + slugI + ".json", "-" + slugJ + ".json");
  }

  /** The ten-thousandth file sorts before the thousand-and-first. */
  lemma TenThousandth(slugI: string, slugJ: string)
    ensures !Text.Leq(FileName(1001, slugI), FileName(10000, slugJ))
  {
    assert Digits(1) == "1" && Digits(10) == "10" && Digits(100) == "100" && Digits(1000) == "1000";
    assert Digits(10000) == "10000" && Digits(1001) == "1001";
    assert PadStart("1001", 4) == "1001" && PadStart("10000", 4) == "10000";
    var a, b := FileName(1001, slugI), FileName(10000, slugJ);
    assert a[..3] == "100" && b[..3] == "100" && a[3] == '1' && b[3] == '0';
    Text.LeqAtFirstDifference(a, b, 3);
  }

  // ---- Recording ----

  datatype Exchange = Exchange(request: Request, response: Response)

  datatype Fixture = Fixture(request: Recorded, response: RecordedResponse)

  /** What readdirSync lists: a file, a directory with its own listing, or something else. */
  datatype DirEntry =
    | File(name: string, content: Fixture)
    | Directory(name: string, entries: seq<DirEntry>)
    | Special(name: string)

  function FixtureOf(c: Codec, x: Exchange): Fixture {
    Fixture(Normalized(c, x.request), NormalizedResponse(c, x.response))
  }

  function FileCount(entries: seq<DirEntry>): nat {
    if entries == [] then 0 else (if entries[0].File? then 1 else 0) + FileCount(entries[1..])
  }

  /** writeFileSync: a file of that name is overwritten. */
  function Written(entries: seq<DirEntry>, name: string, content: Fixture): seq<DirEntry> {
    if entries == [] then [File(name, content)]
    else if entries[0].File? && entries[0].name == name then [File(name, content)] + entries[1..]
    else [entries[0]] + Written(entries[1..], name, content)
  }

  /** recordGoogleHttpFixture: the index is the number of files already there, plus one. */
  function RecordedFile(c: Codec, entries: seq<DirEntry>, fixture: Fixture): seq<DirEntry> {
    Written(entries, FileName(FileCount(entries) + 1, c.slug(fixture.request)), fixture)
  }

  function RecordedFilesOf(c: Codec, fixtures: seq<Fixture>): seq<DirEntry> {
    if fixtures == [] then []
    else RecordedFile(c, RecordedFilesOf(c, fixtures[..|fixtures| - 1]), fixtures[|fixtures| - 1])
  }

  function FixturesOf(c: Codec, xs: seq<Exchange>): seq<Fixture> {
    seq(|xs|, i requires 0 <= i < |xs| => FixtureOf(c, xs[i]))
  }

  /** The directory after recording these exchanges into an empty one. */
  function RecordAll(c: Codec, xs: seq<Exchange>): seq<DirEntry> { RecordedFilesOf(c, FixturesOf(c, xs)) }

  /** What follows the index in the file names, in recording order. */
  function Slugs(c: Codec, fixtures: seq<Fixture>): seq<string> {
    seq(|fixtures|, i requires 0 <= i < |fixtures| => c.slug(fixtures[i].request))
  }

  /** The file names of recordings numbered from 1. */
  function Names(slugs: seq<string>): seq<string> {
    seq(|slugs|, i requires 0 <= i < |slugs| => FileName(i + 1, slugs[i]))
  }

  /** These fixtures in files of these names. */
  function FilesOf(names: seq<string>, fixtures: seq<Fixture>): seq<DirEntry>
    requires |names| == |fixtures|
  {
    seq(|names|, i requires 0 <= i < |names| => File(names[i], fixtures[i]))
  }

  /** Only the files of the directory itself are counted. */
  lemma {:induction false} FileCountSnoc(entries: seq<DirEntry>, e: DirEntry)
    ensures FileCount(entries + [e]) == FileCount(entries) + match e case File(_, _) => 1 case _ => 0
  {
    if entries == [] {
      assert entries + [e] == [e] && [e][1..] == [];
    } else {
      assert (entries + [e])[1..] == entries[1..] + [e];
      FileCountSnoc(entries[1..], e);
    }
  }

  /** Writing leaves exactly one file of that name with the new content where there was at most one, and every other
      entry as it was. */
  lemma {:induction false} WrittenExactly(entries: seq<DirEntry>, name: string, content: Fixture, e: DirEntry)
    requires forall i, j | 0 <= i < j < |entries| && entries[i].File? && entries[j].File? ::
               entries[i].name != entries[j].name
    ensures e in Written(entries, name, content) <==>
            e == File(name, content) || (e in entries && !(e.File? && e.name == name))
  {
    if entries != [] {
      assert entries == [entries[0]] + entries[1..];
      forall i, j | 0 <= i < j < |entries[1..]| && entries[1..][i].File? && entries[1..][j].File?
        ensures entries[1..][i].name != entries[1..][j].name
      {
        assert entries[1..][i] == entries[i + 1] && entries[1..][j] == entries[j + 1];
      }
      WrittenExactly(entries[1..], name, content, e);
    }
  }

  lemma PaddedSnoc(n: nat, h: nat, l: nat, width: nat)
    requires l < 10 && n == h * 10 + l
    ensures Padded(n, width + 1) == Padded(h, width) + [DigitChar(l)]
  {
    assert n / 10 == h && n % 10 == l;
  }

  lemma JoinFour(p: string, q: string, r: string, s: string, a: char, b: char, c: char, d: char)
    requires p == "" + [a] && q == p + [b] && r == q + [c] && s == r + [d]
    ensures s == [a, b, c, d]
  {
  }

  lemma FourDigits(h: nat, i: nat, j: nat, k: nat, b: nat, c: nat, d: nat)
    requires h < 10 && b < 10 && c < 10 && d < 10 && i == h * 10 + b && j == i * 10 + c && k == j * 10 + d
    ensures Padded(k, 4) == [DigitChar(h), DigitChar(b), DigitChar(c), DigitChar(d)]
  {
    var one, two, three, four := Padded(h, 1), Padded(i, 2), Padded(j, 3), Padded(k, 4);
    assert one == "" + [DigitChar(h)] by { PaddedSnoc(h, 0, h, 0); }
    assert two == one + [DigitChar(b)] by { PaddedSnoc(i, h, b, 1); }
    assert three == two + [DigitChar(c)] by { PaddedSnoc(j, i, c, 2); }
    assert four == three + [DigitChar(d)] by { PaddedSnoc(k, j, d, 3); }
    JoinFour(one, two, three, four, DigitChar(h), DigitChar(b), DigitChar(c), DigitChar(d));
  }

  lemma BelowTenThousand(index: nat)
    requires index < 10_000
    ensures Pow10(4) == 10_000
  {
    assert Pow10(4) == 10 * Pow10(3) == 100 * Pow10(2) == 1000 * Pow10(1) == 10000 * Pow10(0);
  }

  /** A file name: the index in four digits, a dash, and what the request adds. */
  lemma FileNameSpelled(index: nat, a: nat, b: nat, c: nat, d: nat, slug: string)
    requires a < 10 && b < 10 && c < 10 && d < 10 && index == a * 1_000 + b * 100 + c * 10 + d
    ensures FileName(index, slug) ==
            [DigitChar(a), DigitChar(b), DigitChar(c), DigitChar(d)] + ("-" + slug + ".json")
  {
    BelowTenThousand(index);
    PadStartDigits(index, 4);
    FourDigits(a, a * 10 + b, (a * 10 + b) * 10 + c, index, b, c, d);
  }

  lemma DigitSpelled(n: nat)
    requires n < 10
    ensures DigitChar(n) == "0123456789"[n]
  {
  }

  ghost predicate Ascending(names: seq<string>) {
    Sorted(Text.Leq, names) && forall i, j | 0 <= i < j < |names| :: names[i] != names[j]
  }

  lemma NamesAscend(slugs: seq<string>)
    requires |slugs| <= 9999
    ensures Ascending(Names(slugs))
  {
    var names := Names(slugs);
    forall i, j | 0 <= i < j < |names| ensures Text.Leq(names[i], names[j]) && names[i] != names[j] {
      FileNameOrder(i + 1, j + 1, slugs[i], slugs[j]);
    }
  }

  /** File-name order is recording order exactly up to 9999 files. */
  lemma NamesInOrderIff(slugs: seq<string>)
    ensures Sorted(Text.Leq, Names(slugs)) <==> |slugs| <= 9999
  {
    if |slugs| <= 9999 {
      NamesAscend(slugs);
    } else {
      TenThousandth(slugs[1000], slugs[9999]);
      assert !Text.Leq(Names(slugs)[1000], Names(slugs)[9999]);
    }
  }

  lemma NamesSnoc(slugs: seq<string>, slug: string)
    ensures Names(slugs + [slug]) == Names(slugs) + [FileName(|slugs| + 1, slug)]
  {
  }

  lemma LastIsNew(names: seq<string>, name: string)
    requires Ascending(names + [name])
    ensures name !in names
  {
    forall i | 0 <= i < |names| ensures names[i] != name { assert (names + [name])[i] != (names + [name])[|names|]; }
  }

  lemma FilesSnoc(names: seq<string>, fixtures: seq<Fixture>, name: string, fixture: Fixture)
    requires |names| == |fixtures|
    ensures FilesOf(names + [name], fixtures + [fixture]) == FilesOf(names, fixtures) + [File(name, fixture)]
  {
  }

  lemma {:induction false} WriteNew(names: seq<string>, fixtures: seq<Fixture>, name: string, fixture: Fixture)
    requires |names| == |fixtures| && name !in names
    ensures Written(FilesOf(names, fixtures), name, fixture) == FilesOf(names, fixtures) + [File(name, fixture)]
    ensures FileCount(FilesOf(names, fixtures)) == |names|
  {
    if names != [] {
      var files := FilesOf(names, fixtures);
      assert names[0] in names;
      assert files[1..] == FilesOf(names[1..], fixtures[1..]);
      WriteNew(names[1..], fixtures[1..], name, fixture);
      assert files == [files[0]] + files[1..];
    }
  }

  lemma SlugsSnoc(c: Codec, fixtures: seq<Fixture>)
    requires fixtures != []
    ensures Slugs(c, fixtures) == Slugs(c, fixtures[..|fixtures| - 1]) + [c.slug(fixtures[|fixtures| - 1].request)]
  {
  }

  /** Nothing is overwritten: file i holds fixture i. */
  lemma {:induction false} RecordedFiles(c: Codec, fixtures: seq<Fixture>)
    requires |fixtures| <= 9999
    ensures RecordedFilesOf(c, fixtures) == FilesOf(Names(Slugs(c, fixtures)), fixtures)
  {
    if fixtures != [] {
      var before, last := fixtures[..|fixtures| - 1], fixtures[|fixtures| - 1];
      var slug, names := c.slug(last.request), Names(Slugs(c, before));
      var name := FileName(|before| + 1, slug);
      RecordedFiles(c, before);
      SlugsSnoc(c, fixtures);
      NamesSnoc(Slugs(c, before), slug);
      NamesAscend(Slugs(c, fixtures));
      LastIsNew(names, name);
      WriteNew(names, before, name, last);
      FilesSnoc(names, before, name, last);
      assert before + [last] == fixtures;
    }
  }

  // ---- listFixtureFiles ----

  /** A file met by the walk: its path, and what readFileSync and JSON.parse make of it. */
  datatype Found = Found(path: string, content: Fixture)

  predicate IsJsonName(name: string) { |name| >= 5 && name[|name| - 5..] == ".json" }

  function Walk(dir: string, entries: seq<DirEntry>): seq<Found>
    decreases entries
  {
    if entries == [] then [] else WalkEntry(dir, entries[0]) + Walk(dir, entries[1..])
  }

  function WalkEntry(dir: string, e: DirEntry): seq<Found>
    decreases e
  {
    match e
    case File(name, content) => if IsJsonName(name) then [Found(dir + "/" + name, content)] else []
    case Directory(name, entries) => Walk(dir + "/" + name, entries)
    case Special(_) => []
  }

  lemma {:induction false} WalkConcat(dir: string, a: seq<DirEntry>, b: seq<DirEntry>)
    ensures Walk(dir, a + b) == Walk(dir, a) + Walk(dir, b)
  {
    if a == [] {
      assert a + b == b;
    } else {
      assert (a + b)[1..] == a[1..] + b;
      WalkConcat(dir, a[1..], b);
    }
  }

  lemma WalkSnoc(dir: string, entries: seq<DirEntry>, i: nat)
    requires i < |entries|
    ensures Walk(dir, entries[..i + 1]) == Walk(dir, entries[..i]) + WalkEntry(dir, entries[i])
  {
    assert entries[..i + 1] == entries[..i] + [entries[i]];
    WalkConcat(dir, entries[..i], [entries[i]]);
    assert Walk(dir, [entries[i]]) == WalkEntry(dir, entries[i]) + Walk(dir, []);
  }

  /** Following this trail of names down from the listing leads to a file with this content. */
  ghost predicate FileAt(entries: seq<DirEntry>, trail: seq<string>, content: Fixture)
    decreases |trail|
  {
    if |trail| == 0 then false
    else if |trail| == 1 then File(trail[0], content) in entries
    else exists inner :: Directory(trail[0], inner) in entries && FileAt(inner, trail[1..], content)
  }

  /** `path.join` */
  function PathOf(dir: string, trail: seq<string>): string
    decreases |trail|
  {
    if trail == [] then dir else PathOf(dir + "/" + trail[0], trail[1..])
  }

  ghost predicate Leads(dir: string, entries: seq<DirEntry>, trail: seq<string>, f: Found) {
    && trail != [] && FileAt(entries, trail, f.content) && f.path == PathOf(dir, trail)
    && var name := trail[|trail| - 1]; |name| >= 5 && name[|name| - 5..] == ".json"
  }

  lemma LeadsTail(dir: string, entries: seq<DirEntry>, trail: seq<string>, f: Found)
    requires entries != [] && Leads(dir, entries[1..], trail, f)
    ensures Leads(dir, entries, trail, f)
  {
    assert forall e | e in entries[1..] :: e in entries;
  }

  lemma {:induction false} FoundHasTrail(dir: string, entries: seq<DirEntry>, f: Found) returns (trail: seq<string>)
    requires f in Walk(dir, entries)
    ensures Leads(dir, entries, trail, f)
    decreases entries
  {
    if f !in WalkEntry(dir, entries[0]) {
      trail := FoundHasTrail(dir, entries[1..], f);
      LeadsTail(dir, entries, trail, f);
    } else {
      match entries[0]
      case File(name, content) =>
        trail := [name];
        assert PathOf(dir + "/" + name, []) == dir + "/" + name;
      case Directory(name, inner) =>
        var below := FoundHasTrail(dir + "/" + name, inner, f);
        trail := [name] + below;
        assert trail[1..] == below && Directory(name, inner) in entries;
    }
  }

  lemma {:induction false} EntryIsWalked(dir: string, entries: seq<DirEntry>, e: DirEntry, f: Found)
    requires e in entries && f in WalkEntry(dir, e)
    ensures f in Walk(dir, entries)
  {
    if e != entries[0] { EntryIsWalked(dir, entries[1..], e, f); }
  }

  lemma {:induction false} TrailIsFound(dir: string, entries: seq<DirEntry>, trail: seq<string>, f: Found)
    requires Leads(dir, entries, trail, f)
    ensures f in Walk(dir, entries)
    decreases |trail|
  {
    if |trail| == 1 {
      assert PathOf(dir, trail) == PathOf(dir + "/" + trail[0], []) == dir + "/" + trail[0];
      EntryIsWalked(dir, entries, File(trail[0], f.content), f);
    } else {
      var inner :| Directory(trail[0], inner) in entries && FileAt(inner, trail[1..], f.content);
      TrailIsFound(dir + "/" + trail[0], inner, trail[1..], f);
      EntryIsWalked(dir, entries, Directory(trail[0], inner), f);
    }
  }

  /** The walk finds exactly the files whose names end in `.json`, at every depth, under the path that leads to them. */
  lemma WalkFinds(dir: string, entries: seq<DirEntry>, f: Found)
    ensures f in Walk(dir, entries) <==> exists trail :: Leads(dir, entries, trail, f)
  {
    if f in Walk(dir, entries) { var trail := FoundHasTrail(dir, entries, f); }
    forall trail | Leads(dir, entries, trail, f)
      ensures f in Walk(dir, entries)
    {
      TrailIsFound(dir, entries, trail, f);
    }
  }

  method WalkDir(currentDir: string, entries: seq<DirEntry>) returns (filePaths: seq<Found>)
    ensures filePaths == Walk(currentDir, entries)
    decreases entries
  {
    filePaths := [];
    for i := 0 to |entries|
      invariant filePaths == Walk(currentDir, entries[..i])
    {
      WalkSnoc(currentDir, entries, i);
      match entries[i]
      case Directory(name, inner) =>
        var below := WalkDir(currentDir + "/" + name, inner);
        filePaths := filePaths + below;
      case File(name, content) =>
        if IsJsonName(name) { filePaths := filePaths + [Found(currentDir + "/" + name, content)]; }
      case Special(_) =>
    }
    assert entries[..|entries|] == entries;
  }

  predicate FoundLeq(a: Found, b: Found) { Text.Leq(a.path, b.path) }

  lemma FoundOrder()
    ensures Order(FoundLeq)
  {
    forall a, b ensures FoundLeq(a, b) || FoundLeq(b, a) { Text.LeqTotal(a.path, b.path); }
    forall a, b, c | FoundLeq(a, b) && FoundLeq(b, c)
      ensures FoundLeq(a, c)
    {
      Text.LeqTransitive(a.path, b.path, c.path);
    }
  }

  lemma WalkAround(dir: string, entries: seq<DirEntry>, k: nat)
    requires k < |entries|
    ensures multiset(Walk(dir, entries))
            == multiset(WalkEntry(dir, entries[k])) + multiset(Walk(dir, entries[..k] + entries[k + 1..]))
    ensures multiset(entries[..k] + entries[k + 1..]) == multiset(entries) - multiset{entries[k]}
  {
    assert entries == entries[..k] + ([entries[k]] + entries[k + 1..]);
    WalkConcat(dir, entries[..k], [entries[k]] + entries[k + 1..]);
    WalkConcat(dir, [entries[k]], entries[k + 1..]);
    WalkConcat(dir, entries[..k], entries[k + 1..]);
    assert Walk(dir, [entries[k]]) == WalkEntry(dir, entries[k]) + Walk(dir, []);
  }

  lemma WalkTail(dir: string, entries: seq<DirEntry>)
    requires entries != []
    ensures multiset(Walk(dir, entries)) == multiset(WalkEntry(dir, entries[0])) + multiset(Walk(dir, entries[1..]))
    ensures multiset(entries[1..]) == multiset(entries) - multiset{entries[0]}
  {
    assert entries == [entries[0]] + entries[1..];
  }

  /** The order in which a directory lists its entries does not matter to what the walk finds. */
  lemma {:induction false} WalkPermutation(dir: string, a: seq<DirEntry>, b: seq<DirEntry>)
    requires multiset(a) == multiset(b)
    ensures multiset(Walk(dir, a)) == multiset(Walk(dir, b))
    decreases |a|
  {
    SamePermutationSize(a, b);
    if a != [] {
      MemberOfPermutation(a, b, a[0]);
      var k :| 0 <= k < |b| && b[k] == a[0];
      var rest := b[..k] + b[k + 1..];
      assert multiset(Walk(dir, a[1..])) == multiset(Walk(dir, rest)) by {
        WalkTail(dir, a);
        WalkAround(dir, b, k);
        WalkPermutation(dir, a[1..], rest);
      }
      WalkTail(dir, a);
      WalkAround(dir, b, k);
    }
  }

  /** The files of a directory tree in path order, whatever order the file system lists its entries in. */
  ghost predicate Listing(dir: string, entries: seq<DirEntry>, l: seq<Found>) {
    exists order: seq<DirEntry> :: multiset(order) == multiset(entries) && l == Sort(FoundLeq, Walk(dir, order))
  }

  function FoundsOf(dir: string, names: seq<string>, fixtures: seq<Fixture>): seq<Found>
    requires |names| == |fixtures|
  {
    seq(|names|, i requires 0 <= i < |names| => Found(dir + "/" + names[i], fixtures[i]))
  }

  lemma {:induction false} WalkFiles(dir: string, names: seq<string>, fixtures: seq<Fixture>)
    requires |names| == |fixtures| && forall i | 0 <= i < |names| :: IsJsonName(names[i])
    ensures Walk(dir, FilesOf(names, fixtures)) == FoundsOf(dir, names, fixtures)
  {
    if names != [] {
      var files := FilesOf(names, fixtures);
      assert files[1..] == FilesOf(names[1..], fixtures[1..]);
      WalkFiles(dir, names[1..], fixtures[1..]);
      assert FoundsOf(dir, names, fixtures)
          == [Found(dir + "/" + names[0], fixtures[0])] + FoundsOf(dir, names[1..], fixtures[1..]);
    }
  }

  lemma FoundsAscend(dir: string, names: seq<string>, fixtures: seq<Fixture>)
    requires |names| == |fixtures| && Ascending(names)
    ensures Sorted(FoundLeq, FoundsOf(dir, names, fixtures)) && Distinguishes(FoundLeq, FoundsOf(dir, names, fixtures))
  {
    var founds := FoundsOf(dir, names, fixtures);
    forall i, j | 0 <= i < j < |founds| ensures FoundLeq(founds[i], founds[j]) && founds[i].path != founds[j].path {
      Text.LeqSamePrefix(dir + "/", names[i], names[j]);
      assert founds[i].path[|dir| + 1..] == names[i] && founds[j].path[|dir| + 1..] == names[j];
    }
    forall a, b | a in founds && b in founds && FoundLeq(a, b) && FoundLeq(b, a) ensures a == b {
      var i :| 0 <= i < |founds| && founds[i] == a;
      var j :| 0 <= j < |founds| && founds[j] == b;
      Text.LeqTotal(a.path, b.path);
    }
  }

  lemma NamesAreJson(slugs: seq<string>, i: nat)
    requires i < |slugs|
    ensures IsJsonName(Names(slugs)[i])
  {
    var name := Names(slugs)[i];
    assert name == (PadStart(Digits(i + 1), 4) + ("-" + slugs[i])) + ".json";
  }

  /** Recorded files list in recording order. */
  lemma ListingIsAscending(dir: string, names: seq<string>, fixtures: seq<Fixture>, l: seq<Found>)
    requires |names| == |fixtures| && Ascending(names) && forall i | 0 <= i < |names| :: IsJsonName(names[i])
    requires Listing(dir, FilesOf(names, fixtures), l)
    ensures l == FoundsOf(dir, names, fixtures)
  {
    var order: seq<DirEntry> :| multiset(order) == multiset(FilesOf(names, fixtures))
        && l == Sort(FoundLeq, Walk(dir, order));
    WalkPermutation(dir, order, FilesOf(names, fixtures));
    WalkFiles(dir, names, fixtures);
    FoundOrder();
    SortSorts(FoundLeq, Walk(dir, order));
    FoundsAscend(dir, names, fixtures);
    SortedUnique(FoundLeq, FoundsOf(dir, names, fixtures), l);
  }

  // ---- Replay ----

  datatype ReplayState = ReplayState(fixtures: seq<Fixture>, nextIndex: nat)

  datatype Outcome = Replied(reply: Reply) | MissingDirectory | NoFixtures | NoneRemains | Unexpected(index: nat)

  predicate Expected(s: ReplayState, request: Recorded) {
    s.nextIndex < |s.fixtures| && RecordedRequestsEqual(s.fixtures[s.nextIndex].request, request)
  }

  function Answer(s: ReplayState, request: Recorded): Outcome {
    if s.nextIndex >= |s.fixtures| then NoneRemains
    else if !Expected(s, request) then Unexpected(s.nextIndex + 1)
    else Replied(ReplyOf(s.fixtures[s.nextIndex].response))
  }

  /** A refused request leaves the cursor where it is. */
  function Advance(s: ReplayState, request: Recorded): ReplayState {
    if Expected(s, request) then s.(nextIndex := s.nextIndex + 1) else s
  }

  /** The next fixture answers the request that equals its own, and then the cursor moves; otherwise nothing does. */
  lemma AnswerSpelled(s: ReplayState, request: Recorded)
    ensures Answer(s, request) ==
            if s.nextIndex >= |s.fixtures| then NoneRemains
            else if RecordedRequestsEqual(s.fixtures[s.nextIndex].request, request) then
              Replied(ReplyOf(s.fixtures[s.nextIndex].response))
            else Unexpected(s.nextIndex + 1)
    ensures Advance(s, request) == if Answer(s, request).Replied? then s.(nextIndex := s.nextIndex + 1) else s
  {
  }

  function Contents(l: seq<Found>): seq<Fixture> { seq(|l|, i requires 0 <= i < |l| => l[i].content) }

  ghost predicate LoadedFrom(dir: string, entries: seq<DirEntry>, s: ReplayState) {
    exists l: seq<Found> :: Listing(dir, entries, l) && s == ReplayState(Contents(l), 0)
  }

  class FixtureStore {
    const c: Codec
    const fixtureDir: string
    var directory: Option<seq<DirEntry>>  // None: it does not exist
    var replay: Option<ReplayState>       // the cached state of the directory

    constructor (c: Codec, fixtureDir: string)
      ensures this.c == c && this.fixtureDir == fixtureDir && directory == None && replay == None
    {
      this.c, this.fixtureDir, directory, replay := c, fixtureDir, None, None;
    }

    /** The directory is created on the first recording. */
    method RecordGoogleHttpFixture(request: Recorded, response: Response)
      modifies this`directory
      ensures var entries := if old(directory).Some? then old(directory).value else [];
              directory == Some(RecordedFile(c, entries, Fixture(request, NormalizedResponse(c, response))))
    {
      var entries := if directory.Some? then directory.value else [];
      var fixture := Fixture(request, NormalizedResponse(c, response));
      var nextIndex := FileCount(entries) + 1;
      directory := Some(Written(entries, FileName(nextIndex, c.slug(request)), fixture));
    }

    method ListFixtureFiles() returns (filePaths: Option<seq<Found>>)
      ensures filePaths.None? <==> directory.None?
      ensures filePaths.Some? ==>
                && Listing(fixtureDir, directory.value, filePaths.value)
                && multiset(filePaths.value) == multiset(Walk(fixtureDir, directory.value))
    {
      if directory.None? { return None; }
      var walked := WalkDir(fixtureDir, directory.value);
      filePaths := Some(Sort(FoundLeq, walked));
    }

    /** Why nothing can be loaded, if so. */
    method LoadReplayFixtureState() returns (failure: Option<Outcome>)
      modifies this`replay
      ensures failure ==
              if old(replay).Some? then None
              else if directory.None? then Some(MissingDirectory)
              else if Walk(fixtureDir, directory.value) == [] then Some(NoFixtures)
              else None
      ensures old(replay).Some? || failure.Some? ==> replay == old(replay)
      ensures old(replay).None? && failure.None?
              ==> replay.Some? && LoadedFrom(fixtureDir, directory.value, replay.value)
    {
      if replay.Some? { return None; }
      var fixtureFiles := ListFixtureFiles();
      if fixtureFiles.None? { return Some(MissingDirectory); }
      var walked := Walk(fixtureDir, directory.value);
      SamePermutationSize(fixtureFiles.value, walked);
      if |fixtureFiles.value| == 0 { return Some(NoFixtures); }
      var state := ReplayState(Contents(fixtureFiles.value), 0);
      assert LoadedFrom(fixtureDir, directory.value, state);
      replay := Some(state);
      failure := None;
    }

    method ReplayGoogleHttpFixture(request: Recorded) returns (r: Outcome)
      modifies this`replay
      ensures old(replay).None? && directory.None? ==> r == MissingDirectory && replay == None
      ensures old(replay).None? && directory.Some? && Walk(fixtureDir, directory.value) == []
              ==> r == NoFixtures && replay == None
      ensures old(replay).Some? || (directory.Some? && Walk(fixtureDir, directory.value) != []) ==>
                exists s ::
                  && (if old(replay).Some? then s == old(replay).value else LoadedFrom(fixtureDir, directory.value, s))
                  && r == Answer(s, request)
                  && replay == Some(if r.Replied? then s.(nextIndex := s.nextIndex + 1) else s)
    {
      var failure := LoadReplayFixtureState();
      if failure.Some? { return failure.value; }
      var state := replay.value;
      if state.nextIndex >= |state.fixtures| {
        r := NoneRemains;
      } else if !RecordedRequestsEqual(state.fixtures[state.nextIndex].request, request) {
        r := Unexpected(state.nextIndex + 1);
      } else {
        r := Replied(ReplyOf(state.fixtures[state.nextIndex].response));
        replay := Some(state.(nextIndex := state.nextIndex + 1));
      }
      assert r == Answer(state, request);
    }
  }

  // ---- Record, then replay ----

  /** The state after these requests. */
  function After(s: ReplayState, requests: seq<Recorded>): ReplayState {
    if requests == [] then s else Advance(After(s, requests[..|requests| - 1]), requests[|requests| - 1])
  }

  /** What the i-th request is answered. */
  function AnswerAt(s: ReplayState, requests: seq<Recorded>, i: nat): Outcome
    requires i < |requests|
  {
    Answer(After(s, requests[..i]), requests[i])
  }

  /** How many of these requests were answered with a recorded response. */
  function RepliedCount(s: ReplayState, requests: seq<Recorded>): nat {
    if requests == [] then 0
    else
      var n := |requests| - 1;
      RepliedCount(s, requests[..n]) + if AnswerAt(s, requests, n).Replied? then 1 else 0
  }

  /** Whatever was refused in between, the cursor is the number of requests answered so far. */
  lemma {:induction false} CursorCountsReplies(fixtures: seq<Fixture>, requests: seq<Recorded>)
    ensures var s := ReplayState(fixtures, 0);
            After(s, requests) == ReplayState(fixtures, RepliedCount(s, requests))
  {
    if requests != [] { CursorCountsReplies(fixtures, requests[..|requests| - 1]); }
  }

  /** So a request is compared with the fixture of that number, after any sequence of requests. */
  lemma AnswerByCount(fixtures: seq<Fixture>, requests: seq<Recorded>, i: nat)
    requires i < |requests|
    ensures var s := ReplayState(fixtures, 0);
            var n := RepliedCount(s, requests[..i]);
            AnswerAt(s, requests, i) ==
              if n >= |fixtures| then NoneRemains
              else if RecordedRequestsEqual(fixtures[n].request, requests[i]) then
                Replied(ReplyOf(fixtures[n].response))
              else Unexpected(n + 1)
  {
    CursorCountsReplies(fixtures, requests[..i]);
  }

  function WithoutAt(requests: seq<Recorded>, i: nat): seq<Recorded>
    requires i < |requests|
  {
    requests[..i] + requests[i + 1..]
  }

  lemma {:induction false} RefusedLeavesState(fixtures: seq<Fixture>, requests: seq<Recorded>, i: nat, n: nat)
    requires i < n <= |requests| && !AnswerAt(ReplayState(fixtures, 0), requests, i).Replied?
    ensures var s := ReplayState(fixtures, 0);
            After(s, requests[..n]) == After(s, WithoutAt(requests, i)[..n - 1])
  {
    var s := ReplayState(fixtures, 0);
    if n == i + 1 {
      CursorCountsReplies(fixtures, requests[..i]);
      CursorCountsReplies(fixtures, requests[..n]);
      assert requests[..n][..i] == requests[..i] == WithoutAt(requests, i)[..i];
    } else {
      RefusedLeavesState(fixtures, requests, i, n - 1);
      assert requests[..n][..n - 1] == requests[..n - 1];
      assert WithoutAt(requests, i)[..n - 1][..n - 2] == WithoutAt(requests, i)[..n - 2];
    }
  }

  /** Deleting a refused request changes no later answer. */
  lemma RefusedLeavesNoTrace(fixtures: seq<Fixture>, requests: seq<Recorded>, i: nat, j: nat)
    requires i < j < |requests| && !AnswerAt(ReplayState(fixtures, 0), requests, i).Replied?
    ensures var s := ReplayState(fixtures, 0);
            AnswerAt(s, requests, j) == AnswerAt(s, WithoutAt(requests, i), j - 1)
  {
    RefusedLeavesState(fixtures, requests, i, j);
    LaterRequest(requests, i, j);
    SameAnswer(fixtures, requests, j, WithoutAt(requests, i), j - 1);
  }

  lemma LaterRequest(requests: seq<Recorded>, i: nat, j: nat)
    requires i < j < |requests|
    ensures |WithoutAt(requests, i)| == |requests| - 1 && WithoutAt(requests, i)[j - 1] == requests[j]
  {
  }

  lemma SameAnswer(fixtures: seq<Fixture>, a: seq<Recorded>, i: nat, b: seq<Recorded>, j: nat)
    requires i < |a| && j < |b| && a[i] == b[j]
    requires var s := ReplayState(fixtures, 0); After(s, a[..i]) == After(s, b[..j])
    ensures var s := ReplayState(fixtures, 0); AnswerAt(s, a, i) == AnswerAt(s, b, j)
  {
  }

  ghost predicate Matching(fixtures: seq<Fixture>, requests: seq<Recorded>) {
    && |requests| <= |fixtures|
    && forall i | 0 <= i < |requests| :: RecordedRequestsEqual(fixtures[i].request, requests[i])
  }

  lemma {:induction false} CursorFollows(fixtures: seq<Fixture>, requests: seq<Recorded>)
    requires Matching(fixtures, requests)
    ensures After(ReplayState(fixtures, 0), requests) == ReplayState(fixtures, |requests|)
  {
    if requests != [] { CursorFollows(fixtures, requests[..|requests| - 1]); }
  }

  lemma AnswerAfterMatching(fixtures: seq<Fixture>, requests: seq<Recorded>, i: nat)
    requires i < |requests| && Matching(fixtures, requests[..i])
    ensures AnswerAt(ReplayState(fixtures, 0), requests, i) ==
            if i >= |fixtures| then NoneRemains
            else if RecordedRequestsEqual(fixtures[i].request, requests[i]) then Replied(ReplyOf(fixtures[i].response))
            else Unexpected(i + 1)
  {
    CursorFollows(fixtures, requests[..i]);
  }

  ghost predicate AllReplied(s: ReplayState, requests: seq<Recorded>) {
    forall i | 0 <= i < |requests| :: AnswerAt(s, requests, i).Replied?
  }

  lemma {:induction false} RepliedMeansMatching(fixtures: seq<Fixture>, requests: seq<Recorded>, n: nat)
    requires n <= |requests| && AllReplied(ReplayState(fixtures, 0), requests)
    ensures Matching(fixtures, requests[..n])
  {
    if n > 0 {
      RepliedMeansMatching(fixtures, requests, n - 1);
      AnswerAfterMatching(fixtures, requests, n - 1);
      forall k | 0 <= k < n ensures RecordedRequestsEqual(fixtures[k].request, requests[..n][k]) {
        if k < n - 1 { assert requests[..n - 1][k] == requests[k]; }
      }
    }
  }

  /** The requests as the replayer normalizes them. */
  function Received(c: Codec, requests: seq<Request>): seq<Recorded> {
    seq(|requests|, i requires 0 <= i < |requests| => Normalized(c, requests[i]))
  }

  ghost predicate SameRequests(c: Codec, xs: seq<Exchange>, requests: seq<Request>) {
    |requests| <= |xs| && forall i | 0 <= i < |requests| :: SameRequest(c, xs[i].request, requests[i])
  }

  lemma MatchingIsSame(c: Codec, xs: seq<Exchange>, requests: seq<Request>)
    requires Sound(c)
    ensures Matching(FixturesOf(c, xs), Received(c, requests)) <==> SameRequests(c, xs, requests)
  {
    if |requests| <= |xs| {
      forall i | 0 <= i < |requests|
        ensures RecordedRequestsEqual(FixturesOf(c, xs)[i].request, Received(c, requests)[i])
                <==> SameRequest(c, xs[i].request, requests[i])
      {
        RecordedEqualIff(c, xs[i].request, requests[i]);
      }
    }
  }

  /** As long as all earlier requests were the recorded ones, the next is answered with its recorded response exactly
      when it is the recorded one too. */
  lemma NextAnswer(c: Codec, xs: seq<Exchange>, requests: seq<Request>, i: nat)
    requires Sound(c) && i < |requests| && SameRequests(c, xs, requests[..i])
    ensures AnswerAt(ReplayState(FixturesOf(c, xs), 0), Received(c, requests), i) ==
            if i >= |xs| then NoneRemains
            else if SameRequest(c, xs[i].request, requests[i]) then
              Replied(ReplyOf(NormalizedResponse(c, xs[i].response)))
            else Unexpected(i + 1)
  {
    MatchingIsSame(c, xs, requests[..i]);
    assert Received(c, requests[..i]) == Received(c, requests)[..i];
    AnswerAfterMatching(FixturesOf(c, xs), Received(c, requests), i);
    if i < |xs| { RecordedEqualIff(c, xs[i].request, requests[i]); }
  }

  lemma MatchingReplied(fixtures: seq<Fixture>, requests: seq<Recorded>)
    requires Matching(fixtures, requests)
    ensures forall i | 0 <= i < |requests| ::
            AnswerAt(ReplayState(fixtures, 0), requests, i) == Replied(ReplyOf(fixtures[i].response))
  {
    forall i | 0 <= i < |requests|
      ensures AnswerAt(ReplayState(fixtures, 0), requests, i) == Replied(ReplyOf(fixtures[i].response))
    {
      assert Matching(fixtures, requests[..i]);
      AnswerAfterMatching(fixtures, requests, i);
    }
  }

  lemma AllRepliedIff(fixtures: seq<Fixture>, requests: seq<Recorded>)
    ensures AllReplied(ReplayState(fixtures, 0), requests) <==> Matching(fixtures, requests)
  {
    if AllReplied(ReplayState(fixtures, 0), requests) {
      RepliedMeansMatching(fixtures, requests, |requests|);
      assert requests[..|requests|] == requests;
    }
    if Matching(fixtures, requests) { MatchingReplied(fixtures, requests); }
  }

  /** Loading a recorded directory yields the fixtures in recording order. */
  lemma LoadedInRecordingOrder(c: Codec, dir: string, fixtures: seq<Fixture>, s: ReplayState)
    requires |fixtures| <= 9999 && LoadedFrom(dir, RecordedFilesOf(c, fixtures), s)
    ensures s == ReplayState(fixtures, 0)
  {
    var l: seq<Found> :| Listing(dir, RecordedFilesOf(c, fixtures), l) && s == ReplayState(Contents(l), 0);
    RecordedFiles(c, fixtures);
    ListedContents(dir, Slugs(c, fixtures), fixtures, l);
  }

  lemma ListedContents(dir: string, slugs: seq<string>, fixtures: seq<Fixture>, l: seq<Found>)
    requires |slugs| == |fixtures| <= 9999 && Listing(dir, FilesOf(Names(slugs), fixtures), l)
    ensures Contents(l) == fixtures
  {
    var names := Names(slugs);
    NamesAscend(slugs);
    forall i | 0 <= i < |names| ensures IsJsonName(names[i]) { NamesAreJson(slugs, i); }
    ListingIsAscending(dir, names, fixtures, l);
  }

  /** Record up to 9999 exchanges into an empty directory, then replay: every request is answered exactly when the
      requests are, one by one, the recorded ones (up to query order, form order, key order and secrets); and then the
      answers are the redacted responses in recording order. */
  lemma RecordThenReplay(c: Codec, dir: string, xs: seq<Exchange>, s: ReplayState, requests: seq<Request>)
    requires Sound(c) && |xs| <= 9999 && LoadedFrom(dir, RecordAll(c, xs), s)
    ensures AllReplied(s, Received(c, requests)) <==> SameRequests(c, xs, requests)
    ensures SameRequests(c, xs, requests) ==>
              forall i | 0 <= i < |requests| ::
                AnswerAt(s, Received(c, requests), i) == Replied(ReplyOf(NormalizedResponse(c, xs[i].response)))
  {
    var fixtures, received := FixturesOf(c, xs), Received(c, requests);
    LoadedInRecordingOrder(c, dir, fixtures, s);
    MatchingIsSame(c, xs, requests);
    AllRepliedIff(fixtures, received);
    if Matching(fixtures, received) { MatchingReplied(fixtures, received); }
  }
}
