/**
 The `ImgToPinyin` object and its `ocr` coroutine. The OCR engine's answer (the
 list of detections `readtext` returns) and the transliteration `pinyin.get` are
 parameters: the object's own work is to group the detections into lines, order
 them and accumulate the two texts.
 */
module App {
  import opened Text
  import opened KeyOrder
  import opened Reconstruction

  /** `m` files every detection of `ds` under its key, and `ko` lists the keys in first-seen order. */
  ghost predicate Grouped(ds: seq<Detection>, m: map<int, seq<Detection>>, ko: seq<int>)
  {
    ko == KeysInOrder(ds) && forall k :: k in m ==> m[k] == Bucket(ds, k)
  }

  /** Appending `d` to its bucket, inserting the key when it is new, files one more detection. */
  lemma GroupedSnoc(ds: seq<Detection>, d: Detection, m: map<int, seq<Detection>>, ko: seq<int>)
    requires Grouped(ds, m, ko) && forall k :: k in m <==> k in ko
    ensures var k := Key(d);
            Grouped(ds + [d], m[k := (if k in m then m[k] else []) + [d]], if k in m then ko else ko + [k])
  {
    KeysSnoc(ds, d);
    var k := Key(d);
    var m' := m[k := (if k in m then m[k] else []) + [d]];
    forall j | j in m' ensures m'[j] == Bucket(ds + [d], j) {
      BucketSnoc(ds, d, j);
      if j == k && k !in m {
        assert k !in KeysInOrder(ds);
      }
    }
  }

  /** Of the buckets for `keys`, the first `j` are sorted by x and the others are as filed. */
  ghost predicate SortedUpTo(ds: seq<Detection>, keys: seq<int>, j: int, m: map<int, seq<Detection>>)
  {
    forall n :: 0 <= n < |keys| ==> keys[n] in m && m[keys[n]] == if n < j then SortByX(Bucket(ds, keys[n])) else Bucket(ds, keys[n])
  }

  /** Before the walk, no bucket is sorted yet. */
  lemma SortedUpToStart(ds: seq<Detection>, m: map<int, seq<Detection>>, ko: seq<int>)
    requires Grouped(ds, m, ko) && forall k :: k in m <==> k in ko
    ensures SortedUpTo(ds, Ascending(ko), 0, m)
  {
    var keys := Ascending(ko);
    forall n | 0 <= n < |keys| ensures keys[n] in m && m[keys[n]] == Bucket(ds, keys[n]) {
      assert keys[n] in ko;
    }
  }

  /** After the walk, every bucket is sorted. */
  lemma SortedUpToEnd(ds: seq<Detection>, ko: seq<int>, m: map<int, seq<Detection>>, m0: map<int, seq<Detection>>)
    requires Distinct(ko) && (forall k :: k in m <==> k in m0) && (forall k :: k in m0 <==> k in ko)
    requires SortedUpTo(ds, Ascending(ko), |ko|, m)
    ensures forall k :: k in m ==> m[k] == SortByX(Bucket(ds, k))
  {
    var keys := Ascending(ko);
    forall k | k in m ensures m[k] == SortByX(Bucket(ds, k)) {
      assert k in keys;
      var n := IndexOf(keys, k);
    }
  }

  /** Sorting the next bucket in place yields the next line and keeps the other buckets. */
  lemma EmitStep(ds: seq<Detection>, keys: seq<int>, j: int, m: map<int, seq<Detection>>)
    requires StrictlyIncreasing(keys) && 0 <= j < |keys|
    requires SortedUpTo(ds, keys, j, m)
    ensures keys[j] in m
    ensures SortedUpTo(ds, keys, j + 1, m[keys[j] := SortByX(m[keys[j]])])
    ensures Join(Texts(SortByX(m[keys[j]])), ' ') == Line(ds, keys[j])
    ensures LinesFor(ds, keys[..j + 1]) == LinesFor(ds, keys[..j]) + [Line(ds, keys[j])]
  {
    TakeOneMore(keys, j);
    LinesForSnoc(ds, keys[..j], keys[j]);
  }

  /** Appending a line and its transliteration, each with a newline, extends both accumulated texts. */
  lemma AccumulateStep(ls: seq<string>, l: string, f: string -> string)
    ensures Unlines(ls + [l]) == Unlines(ls) + l + "\n"
    ensures Unlines(Transliterate(f, ls + [l])) == Unlines(Transliterate(f, ls)) + f(l) + "\n"
  {
    UnlinesSnoc(ls, l);
    TransliterateSnoc(f, ls, l);
    UnlinesSnoc(Transliterate(f, ls), f(l));
  }

  /** After `j` keys of the walk: the dictionary has its original keys, the first `j` buckets are sorted and both texts hold their lines. */
  ghost predicate Walked(ds: seq<Detection>, keys: seq<int>, j: int, m: map<int, seq<Detection>>, m0: map<int, seq<Detection>>,
                         text: string, pinyinText: string, f: string -> string)
  {
    0 <= j <= |keys| && (forall k :: k in m <==> k in m0) && SortedUpTo(ds, keys, j, m) &&
    text == Unlines(LinesFor(ds, keys[..j])) && pinyinText == Unlines(Transliterate(f, LinesFor(ds, keys[..j])))
  }

  /** The walk starts with the buckets as filed and both texts empty. */
  lemma WalkStart(ds: seq<Detection>, m: map<int, seq<Detection>>, ko: seq<int>, f: string -> string)
    requires Grouped(ds, m, ko) && forall k :: k in m <==> k in ko
    ensures Walked(ds, Ascending(ko), 0, m, m, "", "", f)
  {
    SortedUpToStart(ds, m, ko);
    assert Ascending(ko)[..0] == [];
  }

  /** Sorting the next bucket and appending its line to both texts walks one key further. */
  lemma WalkStep(ds: seq<Detection>, keys: seq<int>, j: int, m: map<int, seq<Detection>>, m0: map<int, seq<Detection>>,
                 text: string, pinyinText: string, f: string -> string, content: seq<Detection>, line: string)
    requires StrictlyIncreasing(keys) && j < |keys| && Walked(ds, keys, j, m, m0, text, pinyinText, f)
    requires keys[j] in m && content == SortByX(m[keys[j]]) && line == Join(Texts(content), ' ')
    ensures line == Line(ds, keys[j])
    ensures Walked(ds, keys, j + 1, m[keys[j] := content], m0, text + line + "\n", pinyinText + f(line) + "\n", f)
  {
    EmitStep(ds, keys, j, m);
    AccumulateStep(LinesFor(ds, keys[..j]), line, f);
  }

  /** Walking every key in ascending order produces the lines of `ds`. */
  lemma WalkedAllLines(ds: seq<Detection>, ko: seq<int>)
    requires ko == KeysInOrder(ds)
    ensures LinesFor(ds, Ascending(ko)[..|Ascending(ko)|]) == Lines(ds)
  {
    assert Ascending(ko)[..|Ascending(ko)|] == LineKeys(ds);
  }

  /** A walk over every key of the grouped detections has sorted every bucket and accumulated every line. */
  lemma WalkEnd(ds: seq<Detection>, ko: seq<int>, m: map<int, seq<Detection>>, m0: map<int, seq<Detection>>,
                text: string, pinyinText: string, f: string -> string)
    requires ko == KeysInOrder(ds) && (forall k :: k in m0 <==> k in ko)
    requires Walked(ds, Ascending(ko), |Ascending(ko)|, m, m0, text, pinyinText, f)
    ensures forall k :: k in m <==> k in m0
    ensures forall k :: k in m ==> m[k] == SortByX(Bucket(ds, k))
    ensures text == Unlines(Lines(ds))
    ensures pinyinText == Unlines(Transliterate(f, Lines(ds)))
  {
    SortedUpToEnd(ds, ko, m, m0);
    WalkedAllLines(ds, ko);
  }

  /**
   The walk over the keys of the grouped detections `m` in ascending order: each
   bucket is sorted by x, its texts are joined by spaces and the line is appended
   to both outputs. The sorted buckets are returned in place of the filed ones.
   */
  method WalkLines(result: seq<Detection>, m0: map<int, seq<Detection>>, ko: seq<int>, pinyin: string -> string)
    returns (m: map<int, seq<Detection>>, text: string, pinyinText: string)
    requires Distinct(ko) && (forall k :: k in m0 <==> k in ko) && Grouped(result, m0, ko)
    ensures forall k :: k in m <==> k in m0
    ensures forall k :: k in m ==> m[k] == SortByX(Bucket(result, k))
    ensures text == Unlines(Lines(result))
    ensures pinyinText == Unlines(Transliterate(pinyin, Lines(result)))
  {
    text, pinyinText := "", "";
    var keys := Ascending(ko);
    m := m0;
    WalkStart(result, m, ko, pinyin);
    var j := 0;
    while j < |keys|
      invariant Walked(result, keys, j, m, m0, text, pinyinText, pinyin)
    {
      var k := keys[j];
      var content := SortByX(m[k]);
      var res := Join(Texts(content), ' ');
      WalkStep(result, keys, j, m, m0, text, pinyinText, pinyin, content, res);
      m := m[k := content];
      text := text + res + "\n";
      pinyinText := pinyinText + pinyin(res) + "\n";
      j := j + 1;
    }
    assert j == |keys|;
    WalkEnd(result, ko, m, m0, text, pinyinText, pinyin);
  }

  class ImgToPinyin {
    /** `self.lines`: the detections filed under each bucket key. */
    var lines: map<int, seq<Detection>>
    /** The keys of `lines` in the order they were first inserted, which a Python dictionary remembers. */
    var keyOrder: seq<int>

    /** `keyOrder` lists every key of `lines` exactly once. */
    ghost predicate Valid()
      reads this
    {
      Distinct(keyOrder) && forall k :: k in lines <==> k in keyOrder
    }

    /** `self.lines = defaultdict(list)`: no keys yet. */
    constructor()
      ensures Valid()
      ensures lines == map[] && keyOrder == []
    {
      lines := map[];
      keyOrder := [];
    }

    /** `self.lines[k].append(d)`: a missing key starts as an empty list and is inserted last. */
    method Append(k: int, d: Detection)
      requires Valid()
      modifies this
      ensures Valid()
      ensures lines == old(lines)[k := (if k in old(lines) then old(lines)[k] else []) + [d]]
      ensures keyOrder == if k in old(lines) then old(keyOrder) else old(keyOrder) + [k]
    {
      if k in lines {
        lines := lines[k := lines[k] + [d]];
      } else {
        DistinctSnoc(keyOrder, k);
        assert [] + [d] == [d];
        lines := lines[k := [d]];
        keyOrder := keyOrder + [k];
      }
    }

    /** `self.lines.clear()` and the loop filing each detection under its rounded vertical centre. */
    method Group(result: seq<Detection>)
      modifies this
      ensures Valid()
      ensures Grouped(result, lines, keyOrder)
    {
      lines, keyOrder := map[], [];
      var i := 0;
      while i < |result|
        invariant 0 <= i <= |result|
        invariant Valid()
        invariant Grouped(result[..i], lines, keyOrder)
      {
        var d := result[i];
        TakeOneMore(result, i);
        GroupedSnoc(result[..i], d, lines, keyOrder);
        Append(Key(d), d);
        i := i + 1;
      }
      assert result[..i] == result;
    }

    /**
     The line reconstruction of `ocr`, with the accumulator `text` starting empty.
     Afterwards `lines` holds every bucket, sorted left to right.
     */
    method Ocr(result: seq<Detection>, pinyin: string -> string) returns (text: string, pinyinText: string)
      modifies this
      ensures Valid()
      ensures keyOrder == KeysInOrder(result)
      ensures forall k :: k in lines <==> Bucket(result, k) != []
      ensures forall k :: k in lines ==> lines[k] == SortByX(Bucket(result, k))
      ensures (text, pinyinText) == Reconstruct(result, pinyin)
    {
      Group(result);
      var sorted;
      sorted, text, pinyinText := WalkLines(result, lines, keyOrder, pinyin);
      assert keyOrder == KeysInOrder(result);
      lines := sorted;
      assert keyOrder == KeysInOrder(result);
      text, pinyinText := Strip(text), Strip(pinyinText);
    }
  }

  /**
   What `ocr` returns as written: the loop variable `text` of the bucketing loop
   is the accumulator itself, so the lines are appended to the last detection's text.
   */
  function OcrAsWritten(result: seq<Detection>, pinyin: string -> string): (r: (string, string))
    ensures r.1 == Reconstruct(result, pinyin).1
    ensures result == [] ==> r == Reconstruct(result, pinyin)
  {
    var start := if result == [] then "" else result[|result| - 1].text;
    (Strip(start + Unlines(Lines(result))), Strip(Unlines(Transliterate(pinyin, Lines(result)))))
  }

  /** As written, the text returned is the last detection's text followed by the lines, stripped. */
  lemma AsWrittenTextAppends(result: seq<Detection>, pinyin: string -> string)
    requires result != []
    ensures OcrAsWritten(result, pinyin).0 == Strip(result[|result| - 1].text + Unlines(Lines(result)))
  {
  }

  /** As written, the returned text always starts with `t`, the text of the last detection. */
  lemma AsWrittenStartsWithLastText(result: seq<Detection>, t: string, pinyin: string -> string)
    requires result != [] && result[|result| - 1].text == t
    requires t != [] && Trimmed(t)
    ensures |t| <= |OcrAsWritten(result, pinyin).0| && OcrAsWritten(result, pinyin).0[..|t|] == t
  {
    AsWrittenTextAppends(result, pinyin);
    StripKeepsPrefix(t, Unlines(Lines(result)));
  }

  /** As written, when the detections make the one line `l` and the last of them has the text `t`, the text returned is `t` followed by `l`. */
  lemma AsWrittenOneLine(result: seq<Detection>, t: string, l: string, pinyin: string -> string)
    requires result != [] && result[|result| - 1].text == t && Lines(result) == [l]
    requires t + l != [] && Trimmed(t + l)
    ensures OcrAsWritten(result, pinyin).0 == t + l
  {
    AsWrittenTextAppends(result, pinyin);
    StripPrefixedLine(t, l);
  }

  /** A single detection, as written, comes back with its text twice. */
  lemma AsWrittenSingle(a: Detection, pinyin: string -> string)
    requires a.text != [] && Trimmed(a.text)
    ensures OcrAsWritten([a], pinyin).0 == a.text + a.text
  {
    SingleDetectionLine(a);
    TrimmedTwice(a.text);
    AsWrittenOneLine([a], a.text, a.text, pinyin);
  }

  /** One detection "你好": the code as written returns "你好你好", the intended text is "你好". */
  lemma ShadowedTextRepeats(pinyin: string -> string)
    ensures OcrAsWritten([Hello], pinyin).0 == "你好你好"
    ensures Reconstruct([Hello], pinyin).0 == "你好"
  {
    assert Hello.text == "你好" && Hello.text + Hello.text == "你好你好";
    AsWrittenSingle(Hello, pinyin);
    SingleDetectionText(Hello, pinyin);
  }

  /** The last fragment's text in front of the line "你好 世界" reads "世界你好 世界", which has nothing to strip. */
  lemma WorldThenLine()
    ensures World.text + "你好 世界" == "世界你好 世界"
    ensures Trimmed(World.text + "你好 世界")
  {
  }

  /** "你好" and "世界" on one line: as written the last fragment's text comes first, giving "世界你好 世界"; the intended text is "你好 世界". */
  lemma AsWrittenSameLine(pinyin: string -> string)
    ensures OcrAsWritten([Hello, World], pinyin).0 == "世界你好 世界"
    ensures Reconstruct([Hello, World], pinyin).0 == "你好 世界"
  {
    WorldThenLine();
    SameLineExample();
    AsWrittenOneLine([Hello, World], World.text, "你好 世界", pinyin);
    SameLineText(pinyin);
  }
}
