/**
 What `ImgToPinyin.ocr` computes from the OCR detections, stated as functions:
 each detection is filed under the key `round(y_center, -1)`, the keys are taken
 in ascending order (top to bottom), each bucket is stably sorted by the x of
 its first corner (left to right), its texts are joined by single spaces, and
 every line is followed by a newline before the whole text is stripped.
 */
module Reconstruction {
  import opened Rounding
  import opened Text
  import opened KeyOrder

  datatype Point = Point(x: int, y: int)

  /** The corners of a detection, starting at the top left; the code reads `box[0]` and `box[2]`, so a box has at least three. */
  type Box = b: seq<Point> | |b| >= 3 witness [Point(0, 0), Point(0, 0), Point(0, 0)]

  /** One `(box, text, conf)` triple from the OCR reader. */
  datatype Detection = Detection(box: Box, text: string, conf: real)

  /** The bucket key `round((box[0].y + box[2].y) / 2, -1)`. */
  function Key(d: Detection): (k: int)
    ensures NearestTens(d.box[0].y + d.box[2].y, k)
  {
    RoundToTens(d.box[0].y + d.box[2].y)
  }

  /** The sort key `box[0][0]`: the x of the first corner. */
  function X(d: Detection): int
  {
    d.box[0].x
  }

  // ---------------------------------------------------------------------------
  // Bucketing
  // ---------------------------------------------------------------------------

  /** The detections of `ds` filed under key `k`, in detection order (the list `lines[k]` after the first loop). */
  function Bucket(ds: seq<Detection>, k: int): (b: seq<Detection>)
    ensures forall d :: multiset(b)[d] == if d in ds && Key(d) == k then multiset(ds)[d] else 0
  {
    if ds == [] then []
    else
      var init, last := ds[..|ds| - 1], ds[|ds| - 1];
      assert ds == init + [last];
      Bucket(init, k) + if Key(last) == k then [last] else []
  }

  /** The keys of the bucket dictionary in the order it first saw them. */
  function KeysInOrder(ds: seq<Detection>): (ks: seq<int>)
    ensures Distinct(ks)
    ensures forall k :: k in ks <==> Bucket(ds, k) != []
  {
    if ds == [] then []
    else
      var ks := KeysInOrder(ds[..|ds| - 1]);
      KeysStep(ds, ks);
      AddKey(ks, Key(ds[|ds| - 1]))
  }

  /** The key list after one more assignment to the dictionary: a new key goes at the end, a known one stays put. */
  function AddKey(ks: seq<int>, k: int): seq<int>
  {
    if k in ks then ks else ks + [k]
  }

  /** Assigning under `k` makes `k` a key, keeps every earlier key at its position and adds at most one key, last. */
  lemma AddKeyPlaces(ks: seq<int>, k: int)
    ensures k in AddKey(ks, k)
    ensures forall j :: j in AddKey(ks, k) <==> j in ks || j == k
    ensures |ks| <= |AddKey(ks, k)| && AddKey(ks, k)[..|ks|] == ks
    ensures |AddKey(ks, k)| == if k in ks then |ks| else |ks| + 1
  {
  }

  /** Filing one more detection keeps the key list duplicate-free and in step with the buckets. */
  lemma KeysStep(ds: seq<Detection>, ks: seq<int>)
    requires ds != [] && Distinct(ks)
    requires forall k :: k in ks <==> Bucket(ds[..|ds| - 1], k) != []
    ensures Distinct(AddKey(ks, Key(ds[|ds| - 1])))
    ensures forall k :: k in AddKey(ks, Key(ds[|ds| - 1])) <==> Bucket(ds, k) != []
  {
    var k := Key(ds[|ds| - 1]);
    if k !in ks {
      DistinctSnoc(ks, k);
    }
    forall j ensures j in AddKey(ks, k) <==> Bucket(ds, j) != [] {
      assert j in AddKey(ks, k) <==> j in ks || j == k;
      BucketFilledStep(ds, j);
    }
  }

  /** The non-empty buckets after one more detection: the old ones and that detection's own. */
  lemma BucketFilledStep(ds: seq<Detection>, k: int)
    requires ds != []
    ensures Bucket(ds, k) != [] <==> Bucket(ds[..|ds| - 1], k) != [] || k == Key(ds[|ds| - 1])
  {
    BucketStep(ds, k);
  }

  /** Appending a detection extends exactly the bucket of its own key. */
  lemma BucketStep(ds: seq<Detection>, k: int)
    requires ds != []
    ensures Bucket(ds, k) == Bucket(ds[..|ds| - 1], k) + if Key(ds[|ds| - 1]) == k then [ds[|ds| - 1]] else []
  {
  }

  /** The keys in the order the lines are emitted: ascending, top to bottom. */
  function LineKeys(ds: seq<Detection>): (ks: seq<int>)
    ensures StrictlyIncreasing(ks)
    ensures forall k :: k in ks <==> Bucket(ds, k) != []
    ensures |ks| == |KeysInOrder(ds)|
  {
    Ascending(KeysInOrder(ds))
  }

  // ---------------------------------------------------------------------------
  // The stable sort by x (`content.sort(key=lambda x: x[0][0][0])`)
  // ---------------------------------------------------------------------------

  predicate SortedByX(s: seq<Detection>)
  {
    forall i, j :: 0 <= i < j < |s| ==> X(s[i]) <= X(s[j])
  }

  /** Inserts `d` before the first element whose x is not smaller. */
  function InsertByX(d: Detection, s: seq<Detection>): (r: seq<Detection>)
    ensures multiset(r) == multiset(s) + multiset{d}
  {
    if s == [] || X(d) <= X(s[0]) then [d] + s
    else
      assert s == [s[0]] + s[1..];
      [s[0]] + InsertByX(d, s[1..])
  }

  /** Inserting into a list whose x are all at least `lo` an element whose x is at least `lo` keeps every x at least `lo`. */
  lemma InsertByXAbove(d: Detection, s: seq<Detection>, lo: int)
    requires lo <= X(d) && forall i :: 0 <= i < |s| ==> lo <= X(s[i])
    ensures forall i :: 0 <= i < |InsertByX(d, s)| ==> lo <= X(InsertByX(d, s)[i])
  {
    var r := InsertByX(d, s);
    forall i | 0 <= i < |r| ensures lo <= X(r[i]) {
      assert r[i] in multiset(r);
      if r[i] != d {
        assert r[i] in multiset(s);
        var k :| 0 <= k < |s| && s[k] == r[i];
      }
    }
  }

  /** A sorted list behind an element with no larger x is sorted. */
  lemma SortedCons(e: Detection, r: seq<Detection>)
    requires SortedByX(r) && forall i :: 0 <= i < |r| ==> X(e) <= X(r[i])
    ensures SortedByX([e] + r)
  {
  }

  lemma {:induction false} InsertByXSorted(d: Detection, s: seq<Detection>)
    requires SortedByX(s)
    ensures SortedByX(InsertByX(d, s))
  {
    if s != [] && X(d) > X(s[0]) {
      InsertByXSorted(d, s[1..]);
      InsertByXAbove(d, s[1..], X(s[0]));
      SortedCons(s[0], InsertByX(d, s[1..]));
    } else {
      SortedCons(d, s);
    }
  }

  /** Inserting the head of `s` into a sorted permutation of its tail gives a sorted permutation of `s`. */
  lemma InsertHeadSorted(s: seq<Detection>, rest: seq<Detection>)
    requires s != [] && multiset(rest) == multiset(s[1..]) && SortedByX(rest)
    ensures multiset(InsertByX(s[0], rest)) == multiset(s)
    ensures SortedByX(InsertByX(s[0], rest))
  {
    InsertByXSorted(s[0], rest);
    assert s == [s[0]] + s[1..];
  }

  /** Insertion sort on x; an element is inserted ahead of its equals, so equal-x detections keep their order. */
  function SortByX(s: seq<Detection>): (r: seq<Detection>)
    ensures multiset(r) == multiset(s)
    ensures SortedByX(r)
  {
    if s == [] then []
    else
      var rest := SortByX(s[1..]);
      InsertHeadSorted(s, rest);
      InsertByX(s[0], rest)
  }

  /** The detections of `s` whose x is `v`, in their order in `s`. */
  function FilterX(s: seq<Detection>, v: int): (r: seq<Detection>)
    ensures forall d :: d in r ==> d in s && X(d) == v
  {
    if s == [] then []
    else (if X(s[0]) == v then [s[0]] else []) + FilterX(s[1..], v)
  }

  /** The detections of `ds`, in detection order, that have key `k` and x `v`. */
  function Cell(ds: seq<Detection>, k: int, v: int): (r: seq<Detection>)
    ensures forall d :: d in r ==> d in ds && Key(d) == k && X(d) == v
  {
    if ds == [] then []
    else
      var init, last := ds[..|ds| - 1], ds[|ds| - 1];
      Cell(init, k, v) + if Key(last) == k && X(last) == v then [last] else []
  }

  /** Filtering a sequence with a given first element. */
  lemma FilterXCons(d: Detection, t: seq<Detection>, v: int)
    ensures X(d) == v ==> FilterX([d] + t, v) == [d] + FilterX(t, v)
    ensures X(d) != v ==> FilterX([d] + t, v) == FilterX(t, v)
  {
    assert ([d] + t)[0] == d && ([d] + t)[1..] == t;
  }

  lemma {:induction false} FilterXAppend(a: seq<Detection>, b: seq<Detection>, v: int)
    ensures FilterX(a + b, v) == FilterX(a, v) + FilterX(b, v)
  {
    if a != [] {
      assert (a + b)[0] == a[0] && (a + b)[1..] == a[1..] + b;
      FilterXAppend(a[1..], b, v);
      var head := if X(a[0]) == v then [a[0]] else [];
      assert FilterX(a + b, v) == head + (FilterX(a[1..], v) + FilterX(b, v));
      assert FilterX(a, v) == head + FilterX(a[1..], v);
    } else {
      assert a + b == b;
    }
  }

  /** Restricting a bucket to one x gives the detections with that key and that x, in detection order. */
  lemma {:induction false} BucketThenX(ds: seq<Detection>, k: int, v: int)
    ensures FilterX(Bucket(ds, k), v) == Cell(ds, k, v)
  {
    if ds != [] {
      var init, last := ds[..|ds| - 1], ds[|ds| - 1];
      assert forall d :: d in init ==> d in ds;
      BucketThenX(init, k, v);
      var tail := if Key(last) == k then [last] else [];
      FilterXAppend(Bucket(init, k), tail, v);
      if Key(last) == k {
        assert FilterX(tail, v) == if X(last) == v then [last] else [];
      }
    }
  }

  /** One step of the insertion: `d` goes in front, or behind the first element. */
  lemma InsertByXStep(d: Detection, t: seq<Detection>)
    ensures t != [] && X(d) > X(t[0]) ==> InsertByX(d, t) == [t[0]] + InsertByX(d, t[1..]) && t == [t[0]] + t[1..]
    ensures t == [] || X(d) <= X(t[0]) ==> InsertByX(d, t) == [d] + t
  {
  }

  /** Inserting `d` adds it to the x-class of its own x only, at the front of that class. */
  lemma {:induction false} InsertByXFilter(d: Detection, t: seq<Detection>, v: int)
    ensures X(d) == v ==> FilterX(InsertByX(d, t), v) == [d] + FilterX(t, v)
    ensures X(d) != v ==> FilterX(InsertByX(d, t), v) == FilterX(t, v)
  {
    InsertByXStep(d, t);
    if t != [] && X(d) > X(t[0]) {
      InsertByXFilter(d, t[1..], v);
      FilterXCons(t[0], InsertByX(d, t[1..]), v);
      FilterXCons(t[0], t[1..], v);
    } else {
      FilterXCons(d, t, v);
    }
  }

  /** One step of the sort: the first element is inserted into the sorted rest. */
  lemma SortByXStep(s: seq<Detection>)
    requires s != []
    ensures SortByX(s) == InsertByX(s[0], SortByX(s[1..])) && s == [s[0]] + s[1..]
  {
  }

  /** Stability: sorting keeps, for every x, the detections with that x in their original order. */
  lemma {:induction false} SortByXStable(s: seq<Detection>, v: int)
    ensures FilterX(SortByX(s), v) == FilterX(s, v)
  {
    if s != [] {
      SortByXStep(s);
      SortByXStable(s[1..], v);
      InsertByXFilter(s[0], SortByX(s[1..]), v);
      FilterXCons(s[0], s[1..], v);
    }
  }

  /** In a sorted sequence, the first element's x-class starts with it, and no non-empty class has a smaller x. */
  lemma FirstOfSorted(s: seq<Detection>, v: int)
    requires SortedByX(s) && s != []
    ensures FilterX(s, X(s[0])) != [] && FilterX(s, X(s[0]))[0] == s[0]
    ensures FilterX(s, v) != [] ==> X(s[0]) <= v
  {
    if FilterX(s, v) != [] {
      var e := FilterX(s, v)[0];
      assert e in s;
      var i :| 0 <= i < |s| && s[i] == e;
    }
  }

  /** A sequence sorted by x is determined by its x-classes. */
  lemma {:induction false} SortedDeterminedByClasses(a: seq<Detection>, b: seq<Detection>)
    requires SortedByX(a) && SortedByX(b)
    requires forall v :: FilterX(a, v) == FilterX(b, v)
    ensures a == b
  {
    if a != [] {
      FirstOfSorted(a, X(a[0]));
      assert FilterX(b, X(a[0])) != [];
    }
    if b != [] {
      FirstOfSorted(b, X(b[0]));
      assert FilterX(a, X(b[0])) != [];
    }
    if a != [] && b != [] {
      FirstOfSorted(a, X(b[0]));
      FirstOfSorted(b, X(a[0]));
      assert X(a[0]) == X(b[0]);
      assert a[0] == FilterX(a, X(a[0]))[0] == FilterX(b, X(a[0]))[0] == b[0];
      forall v ensures FilterX(a[1..], v) == FilterX(b[1..], v) {
        var h := if X(a[0]) == v then [a[0]] else [];
        assert FilterX(a, v) == h + FilterX(a[1..], v);
        assert FilterX(b, v) == h + FilterX(b[1..], v);
        assert (h + FilterX(a[1..], v))[|h|..] == FilterX(a[1..], v);
        assert (h + FilterX(b[1..], v))[|h|..] == FilterX(b[1..], v);
      }
      SortedDeterminedByClasses(a[1..], b[1..]);
      assert a == [a[0]] + a[1..] && b == [b[0]] + b[1..];
    }
  }

  /** `SortByX` is the one stable sort by x: any sorted arrangement keeping every x-class in order equals it. */
  lemma StableSortUnique(s: seq<Detection>, a: seq<Detection>)
    requires SortedByX(a)
    requires forall v :: FilterX(a, v) == FilterX(s, v)
    ensures a == SortByX(s)
  {
    forall v ensures FilterX(a, v) == FilterX(SortByX(s), v) {
      SortByXStable(s, v);
    }
    SortedDeterminedByClasses(a, SortByX(s));
  }

  // ---------------------------------------------------------------------------
  // Lines
  // ---------------------------------------------------------------------------

  /** The texts of a bucket, in its order. */
  function Texts(b: seq<Detection>): (ts: seq<string>)
    ensures |ts| == |b|
    ensures forall i :: 0 <= i < |b| ==> ts[i] == b[i].text
  {
    if b == [] then [] else [b[0].text] + Texts(b[1..])
  }

  /** The line for key `k`: `" ".join` of the texts of its sorted bucket. */
  function Line(ds: seq<Detection>, k: int): (l: string)
    ensures Bucket(ds, k) == [] ==> l == []
    ensures |Bucket(ds, k)| == 1 ==> l == Bucket(ds, k)[0].text
  {
    Join(Texts(SortByX(Bucket(ds, k))), ' ')
  }

  /** The sorted buckets for keys `ks`, in that order. */
  function BucketsFor(ds: seq<Detection>, ks: seq<int>): (bs: seq<seq<Detection>>)
    ensures |bs| == |ks|
    ensures forall i {:trigger bs[i]} :: 0 <= i < |ks| ==> bs[i] == SortByX(Bucket(ds, ks[i]))
  {
    if ks == [] then []
    else
      var init, last := BucketsFor(ds, ks[..|ks| - 1]), SortByX(Bucket(ds, ks[|ks| - 1]));
      BucketsSnoc(ds, ks, init, last);
      init + [last]
  }

  /** Appending the last key's sorted bucket to the buckets of the other keys gives the buckets of all keys. */
  lemma BucketsSnoc(ds: seq<Detection>, ks: seq<int>, init: seq<seq<Detection>>, last: seq<Detection>)
    requires ks != [] && |init| == |ks| - 1
    requires forall i {:trigger init[i]} :: 0 <= i < |init| ==> init[i] == SortByX(Bucket(ds, ks[..|ks| - 1][i]))
    requires last == SortByX(Bucket(ds, ks[|ks| - 1]))
    ensures forall i {:trigger (init + [last])[i]} :: 0 <= i < |ks| ==> (init + [last])[i] == SortByX(Bucket(ds, ks[i]))
  {
    forall i | 0 <= i < |ks| ensures (init + [last])[i] == SortByX(Bucket(ds, ks[i])) {
      if i < |init| {
        assert ks[..|ks| - 1][i] == ks[i];
      } else {
        assert i == |ks| - 1 && (init + [last])[i] == last;
      }
    }
  }

  /** `" ".join` of the texts of each bucket, in order. */
  function JoinEach(bs: seq<seq<Detection>>): (ls: seq<string>)
    ensures |ls| == |bs|
    ensures forall i {:trigger ls[i]} :: 0 <= i < |bs| ==> ls[i] == Join(Texts(bs[i]), ' ')
  {
    if bs == [] then [] else JoinEach(bs[..|bs| - 1]) + [Join(Texts(bs[|bs| - 1]), ' ')]
  }

  /** The lines for keys `ks`, in that order. */
  function LinesFor(ds: seq<Detection>, ks: seq<int>): (ls: seq<string>)
    ensures |ls| == |ks|
    ensures forall i {:trigger ls[i]} :: 0 <= i < |ks| ==> ls[i] == Line(ds, ks[i])
  {
    JoinEach(BucketsFor(ds, ks))
  }

  /** One more key adds its line at the end. */
  lemma LinesForSnoc(ds: seq<Detection>, ks: seq<int>, k: int)
    ensures LinesFor(ds, ks + [k]) == LinesFor(ds, ks) + [Line(ds, k)]
  {
    var l, r := LinesFor(ds, ks + [k]), LinesFor(ds, ks) + [Line(ds, k)];
    assert forall i :: 0 <= i < |ks| ==> (ks + [k])[i] == ks[i];
    assert forall i :: 0 <= i < |l| ==> l[i] == r[i];
  }

  /** The sorted buckets, top to bottom. */
  function LineBuckets(ds: seq<Detection>): (bs: seq<seq<Detection>>)
    ensures |bs| == |KeysInOrder(ds)|
    ensures forall i :: 0 <= i < |bs| ==> bs[i] != []
  {
    BucketsFor(ds, LineKeys(ds))
  }

  /** The emitted lines, top to bottom, before the newlines and the final strip. */
  function Lines(ds: seq<Detection>): (ls: seq<string>)
    ensures |ls| == |KeysInOrder(ds)|
    ensures ds == [] ==> ls == []
  {
    LinesFor(ds, LineKeys(ds))
  }

  /** Applies the transliteration `f` line by line. */
  function Transliterate(f: string -> string, ls: seq<string>): (ps: seq<string>)
    ensures |ps| == |ls|
    ensures forall i {:trigger ps[i]} :: 0 <= i < |ls| ==> ps[i] == f(ls[i])
  {
    if ls == [] then []
    else Transliterate(f, ls[..|ls| - 1]) + [f(ls[|ls| - 1])]
  }

  /** One more line adds its transliteration at the end. */
  lemma TransliterateSnoc(f: string -> string, ls: seq<string>, l: string)
    ensures Transliterate(f, ls + [l]) == Transliterate(f, ls) + [f(l)]
  {
    assert (ls + [l])[..|ls|] == ls;
  }

  /** The pair `(text.strip(), pinyin_text.strip())` that the reconstruction returns. */
  function Reconstruct(ds: seq<Detection>, f: string -> string): (r: (string, string))
    ensures Trimmed(r.0) && Trimmed(r.1)
  {
    (Strip(Unlines(Lines(ds))), Strip(Unlines(Transliterate(f, Lines(ds)))))
  }

  /** Concatenation of buckets, in order. */
  function Flatten(bs: seq<seq<Detection>>): (r: seq<Detection>)
  {
    if bs == [] then [] else Flatten(bs[..|bs| - 1]) + bs[|bs| - 1]
  }

  // ---------------------------------------------------------------------------
  // Properties
  // ---------------------------------------------------------------------------

  /** No detections: both outputs are empty. */
  lemma EmptyDetections(f: string -> string)
    ensures Reconstruct([], f) == ("", "")
  {
    assert LineKeys([]) == [];
  }

  /** The buckets for distinct keys `ks` hold each detection whose key is in `ks`, as often as `ds` does, and nothing else. */
  lemma {:induction false} BucketsForCount(ds: seq<Detection>, ks: seq<int>)
    requires Distinct(ks)
    ensures forall d :: multiset(Flatten(BucketsFor(ds, ks)))[d] == if d in ds && Key(d) in ks then multiset(ds)[d] else 0
  {
    if ks != [] {
      var init, last := ks[..|ks| - 1], ks[|ks| - 1];
      assert ks == init + [last];
      assert last !in init;
      BucketsForCount(ds, init);
      assert Flatten(BucketsFor(ds, ks)) == Flatten(BucketsFor(ds, init)) + SortByX(Bucket(ds, last));
    }
  }

  /** Every detection's key is among the line keys. */
  lemma KeyHasLine(ds: seq<Detection>, d: Detection)
    requires d in ds
    ensures Key(d) in LineKeys(ds)
  {
    assert d in multiset(Bucket(ds, Key(d)));
  }

  /** Partition: the lines, taken together, hold exactly the detections, each as often as the input does. */
  lemma LinesHoldEveryDetection(ds: seq<Detection>)
    ensures multiset(Flatten(LineBuckets(ds))) == multiset(ds)
  {
    var ks := LineKeys(ds);
    var m := multiset(Flatten(BucketsFor(ds, ks)));
    BucketsForCount(ds, ks);
    forall d | d in ds ensures m[d] == multiset(ds)[d] {
      KeyHasLine(ds, d);
    }
    forall d | d !in ds ensures m[d] == multiset(ds)[d] {
    }
  }

  /** Partition: detection `d` is in line `i` exactly when line `i` is the line of its key. */
  lemma DetectionInOneLine(ds: seq<Detection>, d: Detection, i: int)
    requires d in ds && 0 <= i < |LineKeys(ds)|
    ensures d in LineBuckets(ds)[i] <==> LineKeys(ds)[i] == Key(d)
  {
    var b := Bucket(ds, LineKeys(ds)[i]);
    assert LineBuckets(ds)[i] == SortByX(b);
    assert d in SortByX(b) <==> d in multiset(b);
  }

  /** The line holding detection `d` (its position among the emitted lines). */
  function LineOf(ds: seq<Detection>, d: Detection): (i: nat)
    requires d in ds
    ensures i < |LineKeys(ds)| && LineKeys(ds)[i] == Key(d)
    ensures d in LineBuckets(ds)[i]
  {
    KeyHasLine(ds, d);
    var i := IndexOf(LineKeys(ds), Key(d));
    DetectionInOneLine(ds, d, i);
    i
  }

  /** Top to bottom: a detection whose centre is more than one quantum (ten) above another's is on an earlier line. */
  lemma SeparatedBandsOrdered(ds: seq<Detection>, a: Detection, b: Detection)
    requires a in ds && b in ds
    requires a.box[0].y + a.box[2].y + 20 < b.box[0].y + b.box[2].y
    ensures Key(a) < Key(b)
    ensures LineOf(ds, a) < LineOf(ds, b)
  {
    RoundToTensSeparates(a.box[0].y + a.box[2].y, b.box[0].y + b.box[2].y);
    IncreasingPositions(LineKeys(ds), LineOf(ds, a), LineOf(ds, b));
  }

  /** Left to right: each line's bucket is sorted by x, holds that key's detections, and keeps equal-x detections in detection order. */
  lemma LineLeftToRight(ds: seq<Detection>, i: int)
    requires 0 <= i < |LineKeys(ds)|
    ensures SortedByX(LineBuckets(ds)[i])
    ensures multiset(LineBuckets(ds)[i]) == multiset(Bucket(ds, LineKeys(ds)[i]))
    ensures forall v :: FilterX(LineBuckets(ds)[i], v) == Cell(ds, LineKeys(ds)[i], v)
  {
    var k := LineKeys(ds)[i];
    forall v ensures FilterX(LineBuckets(ds)[i], v) == Cell(ds, k, v) {
      SortByXStable(Bucket(ds, k), v);
      BucketThenX(ds, k, v);
    }
  }

  /** Line `i` is its bucket's texts joined by single spaces. */
  lemma LineIsJoinedBucket(ds: seq<Detection>, i: int)
    requires 0 <= i < |LineKeys(ds)|
    ensures |Lines(ds)| == |LineBuckets(ds)|
    ensures Lines(ds)[i] == Join(Texts(LineBuckets(ds)[i]), ' ')
  {
  }

  /** Before the strip there is exactly one newline per distinct key, and splitting on newlines gives back the lines. */
  lemma OneNewlinePerBucket(ds: seq<Detection>)
    requires forall d :: d in ds ==> '\n' !in d.text
    ensures multiset(Unlines(Lines(ds)))['\n'] == |KeysInOrder(ds)|
    ensures Split(Unlines(Lines(ds)), '\n') == Lines(ds) + [""]
  {
    LinesFreeOf(ds, '\n');
    UnlinesNewlines(Lines(ds));
    UnlinesSplit(Lines(ds));
  }

  /** A character that no detection text contains, other than the space, is not in the line for key `k`. */
  lemma LineFreeOf(ds: seq<Detection>, k: int, c: char)
    requires c != ' '
    requires forall d :: d in ds ==> c !in d.text
    ensures c !in Line(ds, k)
  {
    var b := SortByX(Bucket(ds, k));
    var ts := Texts(b);
    forall t | t in ts ensures c !in t {
      var j :| 0 <= j < |ts| && ts[j] == t;
      assert b[j] in multiset(Bucket(ds, k));
    }
    JoinAvoids(ts, ' ', c);
  }

  /** A character that no detection text contains, other than the space, appears in no line. */
  lemma LinesFreeOf(ds: seq<Detection>, c: char)
    requires c != ' '
    requires forall d :: d in ds ==> c !in d.text
    ensures forall l :: l in Lines(ds) ==> c !in l
  {
    var ks, ls := LineKeys(ds), Lines(ds);
    forall l | l in ls ensures c !in l {
      var i :| 0 <= i < |ls| && ls[i] == l;
      LineFreeOf(ds, ks[i], c);
    }
  }

  /** Line for line: before the strip, splitting either output on newlines gives its lines, and pinyin line `i` is the transliteration of text line `i`. */
  lemma PinyinLineForLine(ds: seq<Detection>, f: string -> string)
    requires forall d :: d in ds ==> '\n' !in d.text
    requires forall l :: l in Lines(ds) ==> '\n' !in f(l)
    ensures Split(Unlines(Lines(ds)), '\n') == Lines(ds) + [""]
    ensures Split(Unlines(Transliterate(f, Lines(ds))), '\n') == Transliterate(f, Lines(ds)) + [""]
    ensures forall i :: 0 <= i < |Lines(ds)| ==> Transliterate(f, Lines(ds))[i] == f(Lines(ds)[i])
  {
    var ls := Lines(ds);
    var ps := Transliterate(f, ls);
    OneNewlinePerBucket(ds);
    forall p | p in ps ensures '\n' !in p {
      var i :| 0 <= i < |ps| && ps[i] == p;
      assert ls[i] in ls;
    }
    UnlinesSplit(ps);
  }

  /** Filing one more detection appends it to its own bucket only. */
  lemma BucketSnoc(ds: seq<Detection>, d: Detection, k: int)
    ensures Bucket(ds + [d], k) == Bucket(ds, k) + if Key(d) == k then [d] else []
  {
    assert (ds + [d])[..|ds|] == ds;
  }

  /** Filing one more detection adds its key at the end when the key is new. */
  lemma KeysSnoc(ds: seq<Detection>, d: Detection)
    ensures KeysInOrder(ds + [d]) == if Key(d) in KeysInOrder(ds) then KeysInOrder(ds) else KeysInOrder(ds) + [Key(d)]
  {
    assert (ds + [d])[..|ds|] == ds;
  }

  // ---------------------------------------------------------------------------
  // Worked examples
  // ---------------------------------------------------------------------------

  /** A single detection is filed alone under its own key. */
  lemma SingleDetectionBucket(a: Detection)
    ensures KeysInOrder([a]) == [Key(a)]
    ensures Bucket([a], Key(a)) == [a]
  {
    assert [] + [a] == [a];
    KeysSnoc([], a);
    BucketSnoc([], a, Key(a));
  }

  /** A single detection makes a single line holding its text. */
  lemma SingleDetectionLine(a: Detection)
    ensures LineKeys([a]) == [Key(a)]
    ensures Lines([a]) == [a.text]
  {
    SingleDetectionBucket(a);
    AscendingOne(Key(a));
    LinesForOne([a], Key(a));
  }

  /** A single detection with nothing to strip at its ends comes back as its own text. */
  lemma SingleDetectionText(a: Detection, f: string -> string)
    requires a.text != [] && Trimmed(a.text)
    ensures Reconstruct([a], f).0 == a.text
  {
    SingleDetectionLine(a);
    StripOneLine(a.text);
  }

  /** Two detections with the same key, in detection order, as the bucketing loop files them. */
  lemma SameKeyBuckets(a: Detection, b: Detection)
    requires Key(a) == Key(b)
    ensures KeysInOrder([a, b]) == [Key(a)]
    ensures Bucket([a, b], Key(a)) == [a, b]
  {
    assert [] + [a] == [a] && [a] + [b] == [a, b];
    KeysSnoc([], a);
    KeysSnoc([a], b);
    BucketSnoc([], a, Key(a));
    BucketSnoc([a], b, Key(a));
  }

  /** Two detections with different keys, in detection order, get two keys in that order. */
  lemma DifferentKeyOrder(a: Detection, b: Detection)
    requires Key(a) != Key(b)
    ensures KeysInOrder([a, b]) == [Key(a), Key(b)]
  {
    assert [] + [a] == [a] && [a] + [b] == [a, b];
    KeysSnoc([], a);
    KeysSnoc([a], b);
  }

  /** Two detections with different keys each get a bucket of their own. */
  lemma DifferentKeyBuckets(a: Detection, b: Detection)
    requires Key(a) != Key(b)
    ensures Bucket([a, b], Key(a)) == [a] && Bucket([a, b], Key(b)) == [b]
  {
    assert [] + [a] == [a] && [a] + [b] == [a, b];
    BucketSnoc([], a, Key(a));
    BucketSnoc([a], b, Key(a));
    BucketSnoc([], a, Key(b));
    BucketSnoc([a], b, Key(b));
  }

  /** Sorting two detections already in x order leaves them as they are. */
  lemma SortTwo(a: Detection, b: Detection)
    requires X(a) <= X(b)
    ensures SortByX([a, b]) == [a, b]
  {
    assert [a, b][1..] == [b] && [b][1..] == [];
    assert SortByX([b]) == [b];
  }

  /** The lines for a list of keys of length one. */
  lemma LinesForOne(ds: seq<Detection>, k: int)
    ensures LinesFor(ds, [k]) == [Line(ds, k)]
  {
    assert [k][..0] == [];
  }

  /** The lines for a list of keys of length two. */
  lemma LinesForTwo(ds: seq<Detection>, k1: int, k2: int)
    ensures LinesFor(ds, [k1, k2]) == [Line(ds, k1), Line(ds, k2)]
  {
    assert [k1, k2][..1] == [k1];
    LinesForOne(ds, k1);
  }

  /** The texts of two detections joined by a space. */
  lemma JoinTwoTexts(a: Detection, b: Detection)
    ensures Join(Texts([a, b]), ' ') == a.text + " " + b.text
  {
    assert Texts([a, b]) == [a.text, b.text];
    assert [a.text, b.text][1..] == [b.text];
  }

  /** Two detections with the same key form one line, left one first, joined by one space. */
  lemma SameKeyOneLine(a: Detection, b: Detection)
    requires Key(a) == Key(b) && X(a) <= X(b)
    ensures LineKeys([a, b]) == [Key(a)]
    ensures Lines([a, b]) == [a.text + " " + b.text]
  {
    SameKeyBuckets(a, b);
    SortTwo(a, b);
    AscendingOne(Key(a));
    LinesForOne([a, b], Key(a));
    JoinTwoTexts(a, b);
  }

  /** Two detections with different keys form two lines, the smaller key first. */
  lemma DifferentKeysTwoLines(a: Detection, b: Detection)
    requires Key(a) < Key(b)
    ensures LineKeys([a, b]) == [Key(a), Key(b)]
    ensures Lines([a, b]) == [a.text, b.text]
  {
    DifferentKeyOrder(a, b);
    DifferentKeyBuckets(a, b);
    AscendingTwo(Key(a), Key(b));
    LinesForTwo([a, b], Key(a), Key(b));
    assert SortByX([a]) == [a] && SortByX([b]) == [b];
  }

  /** Two fragments in one band, with nothing to strip at the outer ends, come back as their texts joined by a space. */
  lemma SameKeyText(a: Detection, b: Detection, f: string -> string)
    requires Key(a) == Key(b) && X(a) <= X(b)
    requires a.text != [] && b.text != [] && !IsSpace(a.text[0]) && !IsSpace(b.text[|b.text| - 1])
    ensures Reconstruct([a, b], f).0 == a.text + " " + b.text
  {
    SameKeyOneLine(a, b);
    var l := a.text + " " + b.text;
    assert l[0] == a.text[0] && l[|l| - 1] == b.text[|b.text| - 1];
    StripOneLine(l);
  }

  /** A fragment "你好" whose centre is at height 20. */
  const Hello := Detection([Point(0, 10), Point(50, 10), Point(50, 30), Point(0, 30)], "你好", 0.9)

  /** A fragment "世界" to the right of `Hello`, whose centre is at height 22. */
  const World := Detection([Point(60, 12), Point(110, 12), Point(110, 32), Point(60, 32)], "世界", 0.95)

  /** The two fragments fall into bucket 20, `Hello` to the left. */
  lemma HelloWorldPlacement()
    ensures Key(Hello) == 20 && Key(World) == 20 && X(Hello) < X(World)
    ensures Hello.text + " " + World.text == "你好 世界"
  {
  }

  /** Centres 20 and 22 share bucket 20 and form the single line "你好 世界". */
  lemma SameLineExample()
    ensures LineKeys([Hello, World]) == [20]
    ensures Lines([Hello, World]) == ["你好 世界"]
  {
    HelloWorldPlacement();
    SameKeyOneLine(Hello, World);
  }

  /** The text returned for those two fragments is that one line, without its newline. */
  lemma SameLineText(f: string -> string)
    ensures Reconstruct([Hello, World], f).0 == "你好 世界"
  {
    HelloWorldPlacement();
    SameKeyText(Hello, World, f);
  }

  /** Centres 5 and 55 are exact ties: Python rounds them to 0 and 60, giving two lines in that order. */
  lemma SeparateLinesExample()
    ensures var ds := [Detection([Point(0, 0), Point(9, 0), Point(9, 10), Point(0, 10)], "上", 1.0),
                       Detection([Point(0, 50), Point(9, 50), Point(9, 60), Point(0, 60)], "下", 1.0)];
            LineKeys(ds) == [0, 60] && Lines(ds) == ["上", "下"]
  {
    var a := Detection([Point(0, 0), Point(9, 0), Point(9, 10), Point(0, 10)], "上", 1.0);
    var b := Detection([Point(0, 50), Point(9, 50), Point(9, 60), Point(0, 60)], "下", 1.0);
    RoundToTensTies();
    assert Key(a) == 0 && Key(b) == 60;
    DifferentKeysTwoLines(a, b);
  }
}
