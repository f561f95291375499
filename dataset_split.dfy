/**
 * Building the YOLO dataset: the stems present both as `.png` screenshots
 * and as `.txt` label files are shuffled and cut into train, val and test
 * slices, and each stem's image and label are copied into the matching
 * output folders when both source files exist.
 *
 * Directory listings are sequences of names, the file system is the set of
 * paths that exist, and copying is recorded as a list of (source,
 * destination) pairs.
 */
module DatasetSplit {
  import opened Wrappers
  import opened Numeric
  import opened Seqs

  // ---------------------------------------------------------------------
  // Stems.

  /** `name.endswith(ext)`. */
  predicate EndsWith(name: string, ext: string)
  {
    |ext| <= |name| && name[|name| - |ext|..] == ext
  }

  predicate AllDots(s: string)
  {
    forall k :: 0 <= k < |s| ==> s[k] == '.'
  }

  /** The index of the last `.` in `s`. */
  function LastDot(s: string): (r: Option<nat>)
    ensures r.Some? ==> r.value < |s| && s[r.value] == '.' && '.' !in s[r.value + 1..]
    ensures r.None? ==> '.' !in s
  {
    if s == [] then None
    else if s[|s| - 1] == '.' then Some(|s| - 1)
    else
      var r := LastDot(s[..|s| - 1]);
      assert s == s[..|s| - 1] + [s[|s| - 1]];
      r
  }

  /**
   * `os.path.splitext(name)[0]` for a name taken from a directory listing
   * (it holds no path separator): everything before the last dot, unless
   * only dots precede that dot, in which case the name has no extension.
   */
  function Root(name: string): (r: string)
    ensures |r| <= |name| && r == name[..|r|]
  {
    match LastDot(name)
    case None => name
    case Some(d) => if AllDots(name[..d]) then name else name[..d]
  }

  /** What `Root` removes from a name that ends with a one-dot extension such as `.png`. */
  lemma {:induction false} RootOfExtension(name: string, ext: string)
    requires EndsWith(name, ext) && |ext| > 0 && ext[0] == '.' && '.' !in ext[1..]
    ensures var base := name[..|name| - |ext|];
      Root(name) == (if AllDots(base) then name else base)
  {
    var d := |name| - |ext|;
    var r := LastDot(name);
    assert name[d] == ext[0];
    assert name[d + 1..] == ext[1..];
    assert forall k :: d < k < |name| ==> name[k] != '.' by {
      forall k | d < k < |name| ensures name[k] != '.' {
        assert name[d + 1..][k - d - 1] == name[k];
      }
    }
    assert '.' !in name[d + 1..];
  }

  /** An image named `shot.png` has the stem `shot`. */
  lemma PlainStem(stem: string)
    requires |stem| > 0 && '.' !in stem
    ensures Root(stem + ".png") == stem
    ensures Root(stem + ".txt") == stem
  {
    var s0 := stem[0];
    assert !AllDots(stem) by {
      assert stem[0] == s0 && s0 in stem;
    }
    assert (stem + ".png")[..|stem|] == stem;
    assert (stem + ".txt")[..|stem|] == stem;
    assert (stem + ".png")[|stem|..] == ".png";
    assert (stem + ".txt")[|stem|..] == ".txt";
    RootOfExtension(stem + ".png", ".png");
    RootOfExtension(stem + ".txt", ".txt");
  }

  /**
   * The hidden image `.png` keeps its whole name as its stem, and so it
   * matches the label `.png.txt`.
   */
  lemma HiddenImageMatchesLabel(image: string, labelName: string)
    requires image == ".png" && labelName == ".png.txt"
    ensures Root(image) == image && Root(labelName) == image
  {
    assert image[..0] == [];
    RootOfExtension(image, ".png");
    assert labelName[..4] == ".png";
    assert !AllDots(labelName[..4]) by {
      assert labelName[..4][1] == 'p';
    }
    assert labelName[4..] == ".txt";
    RootOfExtension(labelName, ".txt");
  }

  function HasExtension(ext: string): string -> bool
  {
    (name: string) => EndsWith(name, ext)
  }

  /** `[os.path.splitext(f)[0] for f in names if f.endswith(ext)]`. */
  function Stems(names: seq<string>, ext: string): (r: seq<string>)
    ensures forall x :: x in r <==> exists f :: f in names && EndsWith(f, ext) && Root(f) == x
  {
    var kept := Filter(names, HasExtension(ext));
    var r := seq(|kept|, i requires 0 <= i < |kept| => Root(kept[i]));
    KeptIff(names, ext);
    RootsIff(kept, r);
    r
  }

  lemma KeptIff(names: seq<string>, ext: string)
    ensures forall f :: f in Filter(names, HasExtension(ext)) <==> f in names && EndsWith(f, ext)
  {
    var kept := Filter(names, HasExtension(ext));
    forall f | f in names && EndsWith(f, ext) ensures f in kept {
      var i :| 0 <= i < |names| && names[i] == f;
      assert HasExtension(ext)(names[i]);
    }
  }

  lemma RootsIff(kept: seq<string>, r: seq<string>)
    requires |r| == |kept| && forall i :: 0 <= i < |r| ==> r[i] == Root(kept[i])
    ensures forall x :: x in r <==> exists f :: f in kept && Root(f) == x
  {
    forall x | x in r ensures exists f :: f in kept && Root(f) == x {
      var i :| 0 <= i < |r| && r[i] == x;
      assert kept[i] in kept;
    }
    forall f | f in kept ensures Root(f) in r {
      var j :| 0 <= j < |kept| && kept[j] == f;
      assert r[j] == Root(f);
    }
  }

  /** The elements of a sequence as a set (`set(xs)`). */
  function Elements(xs: seq<string>): set<string>
  {
    set x | x in xs
  }

  /**
   * `set(image_files) & set(label_files)`: the stems that have both an
   * image and a label.
   */
  function Matched(images: seq<string>, labels: seq<string>): (m: set<string>)
    ensures forall x :: x in m <==>
      (exists f :: f in images && EndsWith(f, ".png") && Root(f) == x) &&
      (exists g :: g in labels && EndsWith(g, ".txt") && Root(g) == x)
  {
    Elements(Stems(images, ".png")) * Elements(Stems(labels, ".txt"))
  }

  predicate NoDup(xs: seq<string>)
  {
    forall i, j :: 0 <= i < j < |xs| ==> xs[i] != xs[j]
  }

  /** `list(s)`: the elements of `s` once each, in an order this model does not fix. */
  method ToList(s: set<string>) returns (xs: seq<string>)
    ensures NoDup(xs) && |xs| == |s|
    ensures forall x :: x in xs <==> x in s
  {
    xs := [];
    var rest := s;
    while rest != {}
      invariant rest <= s
      invariant NoDup(xs) && |xs| + |rest| == |s|
      invariant forall x :: x in xs <==> x in s && x !in rest
      decreases |rest|
    {
      var x :| x in rest;
      xs := xs + [x];
      rest := rest - {x};
    }
  }

  // ---------------------------------------------------------------------
  // Shuffling.

  /**
   * `random.shuffle(xs)`: for `i` from the last index down to 1, swap
   * `xs[i]` with `xs[j]` for a random `j` in `0..i`. The random draws are
   * a free choice here, so the contract holds for every outcome.
   */
  method Shuffle(a: array<string>)
    modifies a
    ensures multiset(a[..]) == old(multiset(a[..]))
  {
    var i := a.Length;
    while i > 1
      invariant 0 <= i <= a.Length
      invariant multiset(a[..]) == old(multiset(a[..]))
    {
      i := i - 1;
      var j :| 0 <= j <= i;
      a[i], a[j] := a[j], a[i];
    }
  }

  /** The elements of a duplicate-free sequence, counted as a multiset, are the set of them. */
  lemma {:induction false} NoDupMultiset(xs: seq<string>)
    requires NoDup(xs)
    ensures multiset(xs) == multiset(Elements(xs))
  {
    if xs != [] {
      var init := xs[..|xs| - 1];
      var x := xs[|xs| - 1];
      assert xs == init + [x];
      assert NoDup(init);
      NoDupMultiset(init);
      assert x !in init;
      assert Elements(xs) == Elements(init) + {x};
    }
  }

  // ---------------------------------------------------------------------
  // Slicing.

  /** A Python slice bound: a negative index counts from the end, then it is clamped to `0..n`. */
  function Bound(i: int, n: nat): (r: nat)
    ensures r <= n
    ensures 0 <= i <= n ==> r == i
    ensures n < i ==> r == n
    ensures i < 0 && 0 <= i + n ==> r == i + n
    ensures i + n < 0 ==> r == 0
  {
    if i < 0 then (if i + n < 0 then 0 else i + n)
    else if i > n then n else i
  }

  /** `xs[start:stop]`, with `None` for an omitted bound. */
  function Slice(xs: seq<string>, start: Option<int>, stop: Option<int>): (r: seq<string>)
    ensures var lo := if start.Some? then Bound(start.value, |xs|) else 0;
      var hi := if stop.Some? then Bound(stop.value, |xs|) else |xs|;
      && |r| == (if lo < hi then hi - lo else 0)
      && forall k :: 0 <= k < |r| ==> r[k] == xs[lo + k]
  {
    var lo := if start.Some? then Bound(start.value, |xs|) else 0;
    var hi := if stop.Some? then Bound(stop.value, |xs|) else |xs|;
    if lo < hi then xs[lo..hi] else []
  }

  datatype Split = Split(train: seq<string>, val: seq<string>, test: seq<string>)

  /** `int(len(files) * ratio)`. */
  function Count(n: nat, ratio: real): (c: int)
    ensures 0.0 <= ratio ==> 0 <= c && c as real <= n as real * ratio
    ensures 0.0 <= ratio <= 1.0 ==> c <= n
  {
    assert 0.0 <= ratio ==> 0.0 <= n as real * ratio;
    assert 0.0 <= ratio <= 1.0 ==> n as real * ratio <= n as real;
    Trunc(n as real * ratio)
  }

  /**
   * The three slices of the shuffled stems: `[:train_count]`,
   * `[train_count:train_count + val_count]` and `[train_count + val_count:]`.
   * The test ratio takes no part.
   */
  function Plan(shuffled: seq<string>, trainRatio: real, valRatio: real, testRatio: real): Split
  {
    var t := Count(|shuffled|, trainRatio);
    var v := Count(|shuffled|, valRatio);
    Split(Slice(shuffled, None, Some(t)), Slice(shuffled, Some(t), Some(t + v)), Slice(shuffled, Some(t + v), None))
  }

  /** No element of `a` is an element of `b`. */
  predicate Disjoint(a: seq<string>, b: seq<string>)
  {
    forall i, j :: 0 <= i < |a| && 0 <= j < |b| ==> a[i] != b[j]
  }

  /** The slices as plain sequence slices, when neither count is negative. */
  lemma PlanSlices(shuffled: seq<string>, trainRatio: real, valRatio: real, testRatio: real)
    requires 0.0 <= trainRatio && 0.0 <= valRatio
    ensures var p := Plan(shuffled, trainRatio, valRatio, testRatio);
      var n := |shuffled|;
      var t := Count(n, trainRatio);
      var v := Count(n, valRatio);
      var a := if t <= n then t else n;
      var b := if t + v <= n then t + v else n;
      p.train == shuffled[..a] && p.val == shuffled[a..b] && p.test == shuffled[b..]
  {
  }

  /** Cutting a duplicate-free sequence at `a` and `b` gives three slices that share no element. */
  lemma DisjointSlices(s: seq<string>, a: nat, b: nat)
    requires NoDup(s) && a <= b <= |s|
    ensures Disjoint(s[..a], s[a..b]) && Disjoint(s[..a], s[b..]) && Disjoint(s[a..b], s[b..])
  {
    forall i, j | 0 <= i < a && 0 <= j < b - a ensures s[..a][i] != s[a..b][j] {
      assert s[a..b][j] == s[a + j];
    }
    forall i, j | 0 <= i < a && 0 <= j < |s| - b ensures s[..a][i] != s[b..][j] {
      assert s[b..][j] == s[b + j];
    }
    forall i, j | 0 <= i < b - a && 0 <= j < |s| - b ensures s[a..b][i] != s[b..][j] {
      assert s[a..b][i] == s[a + i] && s[b..][j] == s[b + j];
    }
  }

  /**
   * With non-negative ratios the three slices, in order, are the shuffled
   * list: train takes the first `min(train_count, n)` stems, val the next
   * ones up to `min(train_count + val_count, n)`, test the rest; and when
   * the list has no duplicates the slices share no stem.
   */
  lemma Partition(shuffled: seq<string>, trainRatio: real, valRatio: real, testRatio: real)
    requires 0.0 <= trainRatio && 0.0 <= valRatio
    ensures var p := Plan(shuffled, trainRatio, valRatio, testRatio);
      var n := |shuffled|;
      var t := Count(n, trainRatio);
      var v := Count(n, valRatio);
      && p.train + p.val + p.test == shuffled
      && |p.train| == (if t <= n then t else n)
      && |p.train| + |p.val| == (if t + v <= n then t + v else n)
      && (NoDup(shuffled) ==> Disjoint(p.train, p.val) && Disjoint(p.train, p.test) && Disjoint(p.val, p.test))
  {
    var n := |shuffled|;
    var t := Count(n, trainRatio);
    var v := Count(n, valRatio);
    var a := if t <= n then t else n;
    var b := if t + v <= n then t + v else n;
    PlanSlices(shuffled, trainRatio, valRatio, testRatio);
    ThreeSlices(shuffled, a, b);
    if NoDup(shuffled) {
      DisjointSlices(shuffled, a, b);
    }
  }

  /** Cutting at `a` and `b` loses nothing and keeps the order. */
  lemma ThreeSlices(s: seq<string>, a: nat, b: nat)
    requires a <= b <= |s|
    ensures s[..a] + s[a..b] + s[b..] == s
    ensures |s[..a]| == a && |s[..a]| + |s[a..b]| == b
  {
    assert s[..a] + s[a..b] == s[..b];
  }

  /** With the default ratios 0.8 and 0.1, ten stems split 8 / 1 / 1. */
  lemma DefaultRatios(shuffled: seq<string>, testRatio: real)
    requires |shuffled| == 10
    ensures var p := Plan(shuffled, 0.8, 0.1, testRatio);
      |p.train| == 8 && |p.val| == 1 && |p.test| == 1
  {
    assert Count(10, 0.8) == 8;
    assert Count(10, 0.1) == 1;
    Partition(shuffled, 0.8, 0.1, testRatio);
  }

  /** Ratios above one are clamped: train takes every stem. */
  lemma {:induction false} OversizedTrainRatio(shuffled: seq<string>, trainRatio: real, valRatio: real, testRatio: real)
    requires 1.0 <= trainRatio && 0.0 <= valRatio
    ensures var p := Plan(shuffled, trainRatio, valRatio, testRatio);
      p.train == shuffled && p.val == [] && p.test == []
  {
    var n := |shuffled|;
    var t := Count(n, trainRatio);
    assert n as real <= n as real * trainRatio;
    assert n <= t;
    Partition(shuffled, trainRatio, valRatio, testRatio);
  }

  // ---------------------------------------------------------------------
  // Copying.

  /** `os.path.join(dir, name)` on POSIX paths. */
  function JoinPath(dir: string, name: string): string
  {
    if |name| > 0 && name[0] == '/' then name
    else if dir == [] || dir[|dir| - 1] == '/' then dir + name
    else dir + "/" + name
  }

  /** The source and destination folders of one `move_files` call. */
  datatype Folders = Folders(srcImages: string, srcLabels: string, dstImages: string, dstLabels: string)

  datatype Copy = Copy(src: string, dst: string)

  function ImageSource(f: Folders, stem: string): string { JoinPath(f.srcImages, stem + ".png") }
  function LabelSource(f: Folders, stem: string): string { JoinPath(f.srcLabels, stem + ".txt") }

  /** The guard of `move_files`: both source files exist. */
  predicate BothExist(f: Folders, fs: set<string>, stem: string)
  {
    ImageSource(f, stem) in fs && LabelSource(f, stem) in fs
  }

  /** The two copies made for one stem: the image, then the label. */
  function CopyPair(f: Folders, stem: string): seq<Copy>
  {
    [Copy(ImageSource(f, stem), JoinPath(f.dstImages, stem + ".png")),
     Copy(LabelSource(f, stem), JoinPath(f.dstLabels, stem + ".txt"))]
  }

  /** The copies `move_files` makes, in order: a pair for each stem that passes the guard. */
  function Copies(stems: seq<string>, f: Folders, fs: set<string>): seq<Copy>
  {
    if stems == [] then []
    else
      var last := stems[|stems| - 1];
      Copies(stems[..|stems| - 1], f, fs) + (if BothExist(f, fs, last) then CopyPair(f, last) else [])
  }

  /** `move_files`: the loop over the stems, recording each copy. */
  method MoveFiles(stems: seq<string>, f: Folders, fs: set<string>) returns (log: seq<Copy>)
    ensures log == Copies(stems, f, fs)
  {
    log := [];
    for i := 0 to |stems|
      invariant log == Copies(stems[..i], f, fs)
    {
      assert stems[..i + 1][..i] == stems[..i];
      if ImageSource(f, stems[i]) in fs && LabelSource(f, stems[i]) in fs {
        log := log + CopyPair(f, stems[i]);
      }
    }
    assert stems[..|stems|] == stems;
  }

  function Pairs(stems: seq<string>, f: Folders): seq<Copy>
  {
    if stems == [] then [] else Pairs(stems[..|stems| - 1], f) + CopyPair(f, stems[|stems| - 1])
  }

  /**
   * The copies are exactly the unconditional copies of the stems that pass
   * the guard, in their order: a stem is copied only when both of its
   * source files exist, and then both files are copied.
   */
  lemma {:induction false} CopiesAreGuardedPairs(stems: seq<string>, f: Folders, fs: set<string>)
    ensures Copies(stems, f, fs) == Pairs(Filter(stems, (s: string) => BothExist(f, fs, s)), f)
  {
    if stems != [] {
      var init := stems[..|stems| - 1];
      var last := stems[|stems| - 1];
      var guard := (s: string) => BothExist(f, fs, s);
      CopiesAreGuardedPairs(init, f, fs);
      PairsAppend(Filter(init, guard), if guard(last) then [last] else [], f);
    }
  }

  lemma {:induction false} PairsAppend(a: seq<string>, b: seq<string>, f: Folders)
    requires |b| <= 1
    ensures Pairs(a + b, f) == Pairs(a, f) + Pairs(b, f)
  {
    if b != [] {
      assert (a + b)[..|a + b| - 1] == a;
      assert b[..0] == [];
    } else {
      assert a + b == a;
    }
  }

  /** `c` is one of the two copies of a stem of `stems` that passes the guard. */
  ghost predicate CopyOfGuarded(c: Copy, stems: seq<string>, f: Folders, fs: set<string>)
  {
    exists s :: s in stems && BothExist(f, fs, s) && c in CopyPair(f, s)
  }

  /** Every pair in the log belongs to a stem of the list whose two source files exist. */
  lemma {:induction false} CopiedStemsPassTheGuard(stems: seq<string>, f: Folders, fs: set<string>)
    ensures forall k :: 0 <= k < |Copies(stems, f, fs)| ==> CopyOfGuarded(Copies(stems, f, fs)[k], stems, f, fs)
  {
    if stems != [] {
      var init := stems[..|stems| - 1];
      var last := stems[|stems| - 1];
      assert stems == init + [last];
      CopiedStemsPassTheGuard(init, f, fs);
      var c := Copies(stems, f, fs);
      var ci := Copies(init, f, fs);
      assert c == ci + (if BothExist(f, fs, last) then CopyPair(f, last) else []);
      forall k | 0 <= k < |c| ensures CopyOfGuarded(c[k], stems, f, fs) {
        if k < |ci| {
          assert CopyOfGuarded(ci[k], init, f, fs);
          var s :| s in init && BothExist(f, fs, s) && ci[k] in CopyPair(f, s);
          assert c[k] == ci[k] && s in stems;
        } else {
          assert BothExist(f, fs, last) && c[k] in CopyPair(f, last) && last in stems;
        }
      }
    }
  }

  /** A stem of the list whose two source files exist has its image and its label copied. */
  lemma {:induction false} GuardedStemIsCopied(stems: seq<string>, f: Folders, fs: set<string>, s: string)
    requires s in stems && BothExist(f, fs, s)
    ensures CopyPair(f, s)[0] in Copies(stems, f, fs) && CopyPair(f, s)[1] in Copies(stems, f, fs)
  {
    var init := stems[..|stems| - 1];
    var last := stems[|stems| - 1];
    if s != last {
      assert stems == init + [last];
      GuardedStemIsCopied(init, f, fs, s);
    }
  }

  /**
   * The hidden image `.png` matches the label `.png.txt`, but the guard
   * looks for `.png.png`, so a folder holding only those two files copies
   * nothing.
   */
  lemma HiddenImageIsNotCopied(stems: seq<string>, f: Folders, fs: set<string>)
    requires stems == [".png"]
    requires f.srcImages == "img" && f.srcLabels == "lbl"
    requires fs == {"img/.png", "lbl/.png.txt"}
    ensures Copies(stems, f, fs) == []
  {
    assert ImageSource(f, ".png") == "img/.png.png";
    assert ImageSource(f, ".png") !in fs;
    assert stems[..0] == [];
  }

  // ---------------------------------------------------------------------
  // The whole run.

  /** The folders for one subset (`"train"`, `"val"` or `"test"`). */
  function SubsetFolders(imagesFolder: string, labelsFolder: string, outputFolder: string, subset: string): Folders
  {
    Folders(imagesFolder, labelsFolder,
      JoinPath(outputFolder, "images/" + subset), JoinPath(outputFolder, "labels/" + subset))
  }

  /** `random.shuffle(list(m))`: every element of `m` once, in any order. */
  method ShuffledList(m: set<string>) returns (shuffled: seq<string>)
    ensures multiset(shuffled) == multiset(m)
  {
    var xs := ToList(m);
    NoDupMultiset(xs);
    assert Elements(xs) == m;
    var a := new string[|xs|](i requires 0 <= i < |xs| => xs[i]);
    assert a[..] == xs;
    Shuffle(a);
    shuffled := a[..];
  }

  /**
   * `make_yolo_dataset`: match the stems, list and shuffle them, slice
   * them, and copy each slice into its folders.
   */
  method MakeYoloDataset(
    images: seq<string>, labels: seq<string>, fs: set<string>,
    imagesFolder: string, labelsFolder: string, outputFolder: string,
    trainRatio: real, valRatio: real, testRatio: real)
    returns (split: Split, copies: seq<Copy>)
    ensures exists shuffled ::
      multiset(shuffled) == multiset(Matched(images, labels)) &&
      split == Plan(shuffled, trainRatio, valRatio, testRatio)
    ensures 0.0 <= trainRatio && 0.0 <= valRatio ==>
      multiset(split.train + split.val + split.test) == multiset(Matched(images, labels))
    ensures copies ==
      Copies(split.train, SubsetFolders(imagesFolder, labelsFolder, outputFolder, "train"), fs) +
      Copies(split.val, SubsetFolders(imagesFolder, labelsFolder, outputFolder, "val"), fs) +
      Copies(split.test, SubsetFolders(imagesFolder, labelsFolder, outputFolder, "test"), fs)
  {
    var shuffled := ShuffledList(Matched(images, labels));
    split := Plan(shuffled, trainRatio, valRatio, testRatio);
    if 0.0 <= trainRatio && 0.0 <= valRatio {
      Partition(shuffled, trainRatio, valRatio, testRatio);
      assert split.train + split.val + split.test == shuffled;
    }
    var trainCopies := MoveFiles(split.train, SubsetFolders(imagesFolder, labelsFolder, outputFolder, "train"), fs);
    var valCopies := MoveFiles(split.val, SubsetFolders(imagesFolder, labelsFolder, outputFolder, "val"), fs);
    var testCopies := MoveFiles(split.test, SubsetFolders(imagesFolder, labelsFolder, outputFolder, "test"), fs);
    copies := trainCopies + valCopies + testCopies;
  }
}
