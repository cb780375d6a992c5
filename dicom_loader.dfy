/** Loading a series: which directory entries are taken as DICOM files, the
    order the parsed records are put in, and how their pixel arrays are
    flattened into one list of 2-D slices. A directory is a sequence of
    entries (its listing order); the parser is abstract: each entry carries
    the record it parses to, or None when parsing raises. */
module DicomLoader {
  import opened Wrappers
  import opened Numbers
  import opened Grids
  import opened Dataset

  type byte = x: int | 0 <= x < 256

  /** A directory entry: its name, its bytes (None when it cannot be opened),
      and the record the parser yields for it (None when parsing fails). */
  datatype DirEntry = DirEntry(name: string, content: Option<seq<byte>>, parsed: Option<Record>)

  /** No file was selected, or parsing the named selected file raised. */
  datatype LoadError = NoDicomFiles | Unreadable(name: string)

  // ---------------------------------------------------------------- file filter

  /** Lowercasing of one character, on the ASCII letters. */
  function LowerAscii(c: char): char
  {
    if 'A' <= c <= 'Z' then (c as int - 'A' as int + 'a' as int) as char else c
  }

  function Lower(s: string): (t: string)
    ensures |t| == |s| && forall i :: 0 <= i < |s| ==> t[i] == LowerAscii(s[i])
  {
    seq(|s|, i requires 0 <= i < |s| => LowerAscii(s[i]))
  }

  predicate EndsWith(s: string, suffix: string)
  {
    |suffix| <= |s| && s[|s| - |suffix|..] == suffix
  }

  /** The name, lowercased, ends with the DICOM file extension. */
  predicate HasDcmSuffix(name: string)
  {
    EndsWith(Lower(name), ".dcm")
  }

  /** The suffix test is case-insensitive: it accepts exactly the names whose
      last four characters are '.', 'd' or 'D', 'c' or 'C', 'm' or 'M'. */
  lemma DcmSuffixIff(name: string)
    ensures HasDcmSuffix(name) <==>
              |name| >= 4 && name[|name| - 4] == '.' &&
              (name[|name| - 3] == 'd' || name[|name| - 3] == 'D') &&
              (name[|name| - 2] == 'c' || name[|name| - 2] == 'C') &&
              (name[|name| - 1] == 'm' || name[|name| - 1] == 'M')
  {
    if |name| >= 4 {
      var n := |name|;
      var tail := Lower(name)[n - 4..];
      assert tail == [LowerAscii(name[n - 4]), LowerAscii(name[n - 3]), LowerAscii(name[n - 2]), LowerAscii(name[n - 1])];
    }
  }

  /** The four magic bytes "DICM". */
  const Magic: seq<byte> := [68, 73, 67, 77]

  /** Reading n bytes from position pos of a file holding data: at most n
      bytes, fewer at the end of the file. */
  function ReadAt(data: seq<byte>, pos: nat, n: nat): (chunk: seq<byte>)
    ensures |chunk| <= n
    ensures pos + n <= |data| ==> chunk == data[pos..pos + n]
  {
    data[Min(pos, |data|)..Min(pos + n, |data|)]
  }

  /** is_dicom: read 132 bytes, then 4 more, and compare those with "DICM";
      a file that cannot be opened (None) is not DICOM. */
  predicate IsDicom(content: Option<seq<byte>>)
  {
    match content
    case None => false
    case Some(data) =>
      var preamble := ReadAt(data, 0, 132);
      var prefix := ReadAt(data, |preamble|, 4);
      prefix == Magic
  }

  /** is_dicom holds exactly for readable files of at least 136 bytes whose
      bytes 132..135 are "DICM". */
  lemma IsDicomIff(content: Option<seq<byte>>)
    ensures IsDicom(content) <==>
              content.Some? && |content.value| >= 136 && content.value[132..136] == Magic
  {
    if content.Some? {
      var data := content.value;
      var preamble := ReadAt(data, 0, 132);
      if |data| < 136 {
        assert |ReadAt(data, |preamble|, 4)| < 4;
      }
    }
  }

  /** Section 7.1 of DICOM PS3.10 places "DICM" after a 128-byte preamble, at
      bytes 128..131. A file laid out that way is not recognised by the magic
      check unless bytes 132..135 happen to spell "DICM" as well. */
  lemma Part10PrefixNotRecognised(data: seq<byte>)
    requires |data| >= 132 && data[128..132] == Magic
    requires |data| < 136 || data[132..136] != Magic
    ensures !IsDicom(Some(data))
  {
    IsDicomIff(Some(data));
  }

  /** The filter of load_dicom_series. */
  predicate IsSelected(e: DirEntry)
  {
    HasDcmSuffix(e.name) || IsDicom(e.content)
  }

  /** The selected entries, in listing order. */
  function SelectFiles(dir: seq<DirEntry>): (sel: seq<DirEntry>)
    ensures |sel| <= |dir|
    ensures forall e :: e in sel <==> e in dir && IsSelected(e)
  {
    if dir == [] then []
    else (if IsSelected(dir[0]) then [dir[0]] else []) + SelectFiles(dir[1..])
  }

  /** Selection keeps listing order: selecting from a listing split in two
      selects from each part in turn. */
  lemma {:induction false} SelectConcat(a: seq<DirEntry>, b: seq<DirEntry>)
    ensures SelectFiles(a + b) == SelectFiles(a) + SelectFiles(b)
  {
    if a == [] {
      assert a + b == b;
    } else {
      var head := if IsSelected(a[0]) then [a[0]] else [];
      assert (a + b)[0] == a[0] && (a + b)[1..] == a[1..] + b;
      assert SelectFiles(a + b) == head + SelectFiles(a[1..] + b);
      SelectConcat(a[1..], b);
      assert SelectFiles(a) == head + SelectFiles(a[1..]);
      assert head + (SelectFiles(a[1..]) + SelectFiles(b)) == (head + SelectFiles(a[1..])) + SelectFiles(b);
    }
  }

  /** A single entry is kept exactly when it passes the filter. */
  lemma SelectSingle(e: DirEntry)
    ensures SelectFiles([e]) == if IsSelected(e) then [e] else []
  {
    assert [e][1..] == [];
  }

  /** Parsing every selected file in order; the first failure propagates. */
  function ParseAll(files: seq<DirEntry>): (r: Result<seq<Record>, LoadError>)
    ensures r.Ok? <==> forall i :: 0 <= i < |files| ==> files[i].parsed.Some?
    ensures r.Ok? ==> |r.value| == |files| &&
                      forall i :: 0 <= i < |files| ==> files[i].parsed == Some(r.value[i])
    ensures r.Err? ==> exists i :: 0 <= i < |files| && files[i].parsed.None? &&
                                   r.error == Unreadable(files[i].name) &&
                                   forall j :: 0 <= j < i ==> files[j].parsed.Some?
  {
    if files == [] then Ok([])
    else
      match files[0].parsed
      case None => Err(Unreadable(files[0].name))
      case Some(rec) =>
        var rest := ParseAll(files[1..]);
        if rest.Err? then
          assert forall i :: 1 <= i < |files| ==> files[i] == files[1..][i - 1];
          rest
        else
          Ok([rec] + rest.value)
  }

  // ---------------------------------------------------------------- ordering

  /** Which key the series is sorted on. */
  datatype SortMode = ByInstanceNumber | ByPosition | Unsorted

  /** InstanceNumber when every record has one, else the z position when
      every record has one, else a constant key. */
  function ChooseSortMode(series: seq<Record>): SortMode
  {
    if forall i :: 0 <= i < |series| ==> series[i].instanceNumber.Some? then ByInstanceNumber
    else if forall i :: 0 <= i < |series| ==> series[i].imagePosition.Some? then ByPosition
    else Unsorted
  }

  /** A sort key: str(InstanceNumber), float(ImagePositionPatient[2]), or 0. */
  datatype SortKey = Text(s: string) | Number(z: real) | Constant

  function KeyOf(r: Record, mode: SortMode): SortKey
  {
    match mode
    case ByInstanceNumber =>
      if r.instanceNumber.Some? then Text(r.instanceNumber.value) else Constant
    case ByPosition =>
      if r.imagePosition.Some? then Number(r.imagePosition.value.z) else Constant
    case Unsorted => Constant
  }

  /** Python's string comparison a <= b: lexicographic on code points, a
      proper prefix first. */
  predicate TextLe(a: string, b: string)
  {
    a == [] || (b != [] && (a[0] < b[0] || (a[0] == b[0] && TextLe(a[1..], b[1..]))))
  }

  function Rank(k: SortKey): nat
  {
    match k
    case Text(_) => 0
    case Number(_) => 1
    case Constant => 2
  }

  /** The order the sort uses. Keys of different kinds never meet within one
      sort (the mode is chosen for the whole series); they are ordered by kind
      only so that KeyLe is total. */
  predicate KeyLe(a: SortKey, b: SortKey)
  {
    if a.Text? && b.Text? then TextLe(a.s, b.s)
    else if a.Number? && b.Number? then a.z <= b.z
    else Rank(a) <= Rank(b)
  }

  lemma {:induction false} TextLeRefl(a: string)
    ensures TextLe(a, a)
  {
    if a != [] {
      TextLeRefl(a[1..]);
    }
  }

  lemma {:induction false} TextLeTrans(a: string, b: string, c: string)
    requires TextLe(a, b) && TextLe(b, c)
    ensures TextLe(a, c)
  {
    if a != [] && a[0] == b[0] && b[0] == c[0] {
      TextLeTrans(a[1..], b[1..], c[1..]);
    }
  }

  lemma {:induction false} TextLeTotal(a: string, b: string)
    ensures TextLe(a, b) || TextLe(b, a)
  {
    if a != [] && b != [] && a[0] == b[0] {
      TextLeTotal(a[1..], b[1..]);
    }
  }

  lemma {:induction false} TextLeAntisym(a: string, b: string)
    requires TextLe(a, b) && TextLe(b, a)
    ensures a == b
  {
    if a != [] && b != [] {
      TextLeAntisym(a[1..], b[1..]);
      assert a == [a[0]] + a[1..] && b == [b[0]] + b[1..];
    }
  }

  lemma KeyLeRefl(a: SortKey)
    ensures KeyLe(a, a)
  {
    if a.Text? {
      TextLeRefl(a.s);
    }
  }

  lemma KeyLeTrans(a: SortKey, b: SortKey, c: SortKey)
    requires KeyLe(a, b) && KeyLe(b, c)
    ensures KeyLe(a, c)
  {
    if a.Text? && b.Text? && c.Text? {
      TextLeTrans(a.s, b.s, c.s);
    }
  }

  lemma KeyLeTotal(a: SortKey, b: SortKey)
    ensures KeyLe(a, b) || KeyLe(b, a)
  {
    if a.Text? && b.Text? {
      TextLeTotal(a.s, b.s);
    }
  }

  lemma KeyLeAntisym(a: SortKey, b: SortKey)
    requires KeyLe(a, b) && KeyLe(b, a)
    ensures a == b
  {
    if a.Text? && b.Text? {
      TextLeAntisym(a.s, b.s);
    }
  }

  /** Non-decreasing keys along s. */
  predicate SortedBy(s: seq<Record>, mode: SortMode)
  {
    forall i, j :: 0 <= i < j < |s| ==> KeyLe(KeyOf(s[i], mode), KeyOf(s[j], mode))
  }

  /** The records of s whose key is k, in their order in s. */
  function WithKey(s: seq<Record>, mode: SortMode, k: SortKey): seq<Record>
  {
    if s == [] then []
    else (if KeyOf(s[0], mode) == k then [s[0]] else []) + WithKey(s[1..], mode, k)
  }

  /** t holds, key by key, the same records as s in the same relative order. */
  ghost predicate Stable(s: seq<Record>, t: seq<Record>, mode: SortMode)
  {
    forall k :: WithKey(s, mode, k) == WithKey(t, mode, k)
  }

  lemma {:induction false} WithKeyConcat(a: seq<Record>, b: seq<Record>, mode: SortMode, k: SortKey)
    ensures WithKey(a + b, mode, k) == WithKey(a, mode, k) + WithKey(b, mode, k)
  {
    if a == [] {
      assert a + b == b;
    } else {
      var head := if KeyOf(a[0], mode) == k then [a[0]] else [];
      assert (a + b)[0] == a[0] && (a + b)[1..] == a[1..] + b;
      assert WithKey(a + b, mode, k) == head + WithKey(a[1..] + b, mode, k);
      WithKeyConcat(a[1..], b, mode, k);
      assert WithKey(a, mode, k) == head + WithKey(a[1..], mode, k);
      assert head + (WithKey(a[1..], mode, k) + WithKey(b, mode, k)) ==
             (head + WithKey(a[1..], mode, k)) + WithKey(b, mode, k);
    }
  }

  lemma WithKeyPair(x: Record, y: Record, mode: SortMode, k: SortKey)
    requires KeyOf(x, mode) != KeyOf(y, mode)
    ensures WithKey([x, y], mode, k) == WithKey([y, x], mode, k)
  {
    assert [x, y][1..] == [y] && [y, x][1..] == [x];
    assert WithKey([x], mode, k) == if KeyOf(x, mode) == k then [x] else [];
    assert WithKey([y], mode, k) == if KeyOf(y, mode) == k then [y] else [];
  }

  /** Exchanging two neighbours with different keys keeps every key's records
      in order. */
  lemma SwapStable(s: seq<Record>, j: int, mode: SortMode)
    requires 0 < j < |s| && KeyOf(s[j - 1], mode) != KeyOf(s[j], mode)
    ensures Stable(s, s[j - 1 := s[j]][j := s[j - 1]], mode)
  {
    var t := s[j - 1 := s[j]][j := s[j - 1]];
    var pre, post := s[..j - 1], s[j + 1..];
    var x, y := s[j - 1], s[j];
    assert s == (pre + [x, y]) + post;
    assert t == (pre + [y, x]) + post;
    forall k
      ensures WithKey(s, mode, k) == WithKey(t, mode, k)
    {
      WithKeyConcat(pre + [x, y], post, mode, k);
      WithKeyConcat(pre, [x, y], mode, k);
      WithKeyConcat(pre + [y, x], post, mode, k);
      WithKeyConcat(pre, [y, x], mode, k);
      WithKeyPair(x, y, mode, k);
    }
  }

  lemma StableTrans(s: seq<Record>, t: seq<Record>, u: seq<Record>, mode: SortMode)
    requires Stable(s, t, mode) && Stable(t, u, mode)
    ensures Stable(s, u, mode)
  {
    forall k
      ensures WithKey(s, mode, k) == WithKey(u, mode, k)
    {
      assert WithKey(s, mode, k) == WithKey(t, mode, k);
    }
  }

  lemma {:induction false} WithKeyMultiplicity(s: seq<Record>, mode: SortMode, x: Record)
    ensures multiset(WithKey(s, mode, KeyOf(x, mode)))[x] == multiset(s)[x]
  {
    if s != [] {
      WithKeyMultiplicity(s[1..], mode, x);
      assert s == [s[0]] + s[1..];
    }
  }

  /** Keeping every key's records in order makes the result a permutation. */
  lemma StableIsPermutation(s: seq<Record>, t: seq<Record>, mode: SortMode)
    requires Stable(s, t, mode)
    ensures multiset(s) == multiset(t)
  {
    forall x
      ensures multiset(s)[x] == multiset(t)[x]
    {
      WithKeyMultiplicity(s, mode, x);
      WithKeyMultiplicity(t, mode, x);
      assert WithKey(s, mode, KeyOf(x, mode)) == WithKey(t, mode, KeyOf(x, mode));
    }
  }

  lemma {:induction false} WithConstantKey(s: seq<Record>)
    ensures WithKey(s, Unsorted, Constant) == s
  {
    if s != [] {
      WithConstantKey(s[1..]);
      assert s == [s[0]] + s[1..];
    }
  }

  /** With the constant key a stable arrangement is the input itself. */
  lemma ConstantKeyKeepsOrder(s: seq<Record>, t: seq<Record>)
    requires Stable(s, t, Unsorted)
    ensures t == s
  {
    WithConstantKey(s);
    WithConstantKey(t);
    assert WithKey(s, Unsorted, Constant) == WithKey(t, Unsorted, Constant);
  }

  /** Sorted and stable determine the arrangement: two sorted sequences that
      agree key by key are equal. */
  lemma {:induction false} SortedStableUnique(t1: seq<Record>, t2: seq<Record>, mode: SortMode)
    requires SortedBy(t1, mode) && SortedBy(t2, mode) && Stable(t1, t2, mode)
    ensures t1 == t2
    decreases |t1|
  {
    StableIsPermutation(t1, t2, mode);
    assert |t1| == |multiset(t1)| == |multiset(t2)| == |t2|;
    if t1 != [] {
      SortedStableHeads(t1, t2, mode);
      StableTails(t1, t2, mode);
      SortedTail(t1, mode);
      SortedTail(t2, mode);
      SortedStableUnique(t1[1..], t2[1..], mode);
      assert t1 == [t1[0]] + t1[1..] && t2 == [t2[0]] + t2[1..];
    }
  }

  /** Two sorted, mutually stable, non-empty sequences start with the same
      record: both first keys are least, hence equal, and stability fixes
      which record of that key comes first. */
  lemma SortedStableHeads(t1: seq<Record>, t2: seq<Record>, mode: SortMode)
    requires SortedBy(t1, mode) && SortedBy(t2, mode) && Stable(t1, t2, mode)
    requires t1 != [] && |t1| == |t2|
    ensures t1[0] == t2[0]
  {
    StableIsPermutation(t1, t2, mode);
    var k1, k2 := KeyOf(t1[0], mode), KeyOf(t2[0], mode);
    assert t2[0] in multiset(t1) && t1[0] in multiset(t2);
    var i :| 0 <= i < |t1| && t1[i] == t2[0];
    var i' :| 0 <= i' < |t2| && t2[i'] == t1[0];
    KeyLeRefl(k1);
    KeyLeRefl(k2);
    assert KeyLe(k1, k2) && KeyLe(k2, k1);
    KeyLeAntisym(k1, k2);
    assert WithKey(t1, mode, k1) == [t1[0]] + WithKey(t1[1..], mode, k1);
    assert WithKey(t2, mode, k1) == [t2[0]] + WithKey(t2[1..], mode, k1);
    assert WithKey(t1, mode, k1) == WithKey(t2, mode, k1);
    assert t1[0] == WithKey(t1, mode, k1)[0] == WithKey(t2, mode, k1)[0] == t2[0];
  }

  /** Removing a common first record keeps two sequences mutually stable. */
  lemma StableTails(t1: seq<Record>, t2: seq<Record>, mode: SortMode)
    requires Stable(t1, t2, mode) && t1 != [] && t2 != [] && t1[0] == t2[0]
    ensures Stable(t1[1..], t2[1..], mode)
  {
    var k1 := KeyOf(t1[0], mode);
    forall k
      ensures WithKey(t1[1..], mode, k) == WithKey(t2[1..], mode, k)
    {
      assert WithKey(t1, mode, k) == WithKey(t2, mode, k);
      if k == k1 {
        assert WithKey(t1, mode, k)[1..] == WithKey(t1[1..], mode, k);
        assert WithKey(t2, mode, k)[1..] == WithKey(t2[1..], mode, k);
      } else {
        assert WithKey(t1, mode, k) == WithKey(t1[1..], mode, k);
        assert WithKey(t2, mode, k) == WithKey(t2[1..], mode, k);
      }
    }
  }

  lemma SortedTail(t: seq<Record>, mode: SortMode)
    requires SortedBy(t, mode) && t != []
    ensures SortedBy(t[1..], mode)
  {
    forall p, q | 0 <= p < q < |t| - 1
      ensures KeyLe(KeyOf(t[1..][p], mode), KeyOf(t[1..][q], mode))
    {
      assert t[1..][p] == t[p + 1] && t[1..][q] == t[q + 1];
    }
  }

  /** A stable sort in place (list.sort with a key): insertion by exchanging
      neighbours whose keys are strictly out of order. */
  method SortInPlace(a: array<Record>, mode: SortMode)
    modifies a
    ensures SortedBy(a[..], mode)
    ensures Stable(old(a[..]), a[..], mode)
  {
    var i := 0;
    while i < a.Length
      invariant 0 <= i <= a.Length
      invariant forall p, q :: 0 <= p < q < i ==> KeyLe(KeyOf(a[p], mode), KeyOf(a[q], mode))
      invariant Stable(old(a[..]), a[..], mode)
    {
      var j := i;
      while 0 < j && !KeyLe(KeyOf(a[j - 1], mode), KeyOf(a[j], mode))
        invariant 0 <= j <= i
        invariant forall p, q :: 0 <= p < q <= i && p != j && q != j ==>
                    KeyLe(KeyOf(a[p], mode), KeyOf(a[q], mode))
        invariant forall q :: j < q <= i ==> !KeyLe(KeyOf(a[q], mode), KeyOf(a[j], mode))
        invariant Stable(old(a[..]), a[..], mode)
      {
        ghost var before := a[..];
        KeyLeRefl(KeyOf(a[j], mode));
        SwapStable(before, j, mode);
        a[j - 1], a[j] := a[j], a[j - 1];
        assert a[..] == before[j - 1 := before[j]][j := before[j - 1]];
        StableTrans(old(a[..]), before, a[..], mode);
        j := j - 1;
      }
      forall p, q | 0 <= p < q <= i
        ensures KeyLe(KeyOf(a[p], mode), KeyOf(a[q], mode))
      {
        if q == j && p < j - 1 {
          KeyLeTrans(KeyOf(a[p], mode), KeyOf(a[j - 1], mode), KeyOf(a[j], mode));
        } else if p == j {
          KeyLeTotal(KeyOf(a[p], mode), KeyOf(a[q], mode));
        }
      }
      i := i + 1;
    }
  }

  /** load_dicom_series: select the files, fail when there are none, parse
      them in order, and sort the records stably on the chosen key. */
  method LoadDicomSeries(dir: seq<DirEntry>) returns (r: Result<seq<Record>, LoadError>)
    ensures r == Err(NoDicomFiles) <==> SelectFiles(dir) == []
    ensures SelectFiles(dir) != [] && ParseAll(SelectFiles(dir)).Err? ==>
              r == ParseAll(SelectFiles(dir))
    ensures r.Ok? ==> |r.value| == |SelectFiles(dir)| > 0
    ensures SelectFiles(dir) != [] && ParseAll(SelectFiles(dir)).Ok? ==>
              r.Ok? &&
              SortedBy(r.value, ChooseSortMode(ParseAll(SelectFiles(dir)).value)) &&
              Stable(ParseAll(SelectFiles(dir)).value, r.value, ChooseSortMode(ParseAll(SelectFiles(dir)).value))
  {
    var files := SelectFiles(dir);
    if files == [] {
      return Err(NoDicomFiles);
    }
    var parsed := ParseAll(files);
    if parsed.Err? {
      return parsed;
    }
    var series := parsed.value;
    var mode := ChooseSortMode(series);
    var a := new Record[|series|](i requires 0 <= i < |series| => series[i]);
    assert a[..] == series;
    SortInPlace(a, mode);
    StableIsPermutation(series, a[..], mode);
    assert |multiset(a[..])| == |multiset(series)|;
    r := Ok(a[..]);
  }

  /** What a sorted, stable arrangement of the parsed records means for each
      of the three rules: a permutation always; ordered by the text of
      InstanceNumber when every record has one; else ordered by z when every
      record has a position; else the input order unchanged. */
  lemma SeriesOrder(parsed: seq<Record>, t: seq<Record>)
    requires SortedBy(t, ChooseSortMode(parsed)) && Stable(parsed, t, ChooseSortMode(parsed))
    ensures multiset(t) == multiset(parsed)
    ensures ChooseSortMode(parsed) == ByInstanceNumber ==>
              (forall i :: 0 <= i < |t| ==> t[i].instanceNumber.Some?) &&
              forall i, j :: 0 <= i < j < |t| ==>
                TextLe(t[i].instanceNumber.value, t[j].instanceNumber.value)
    ensures ChooseSortMode(parsed) == ByPosition ==>
              (forall i :: 0 <= i < |t| ==> t[i].imagePosition.Some?) &&
              forall i, j :: 0 <= i < j < |t| ==> t[i].imagePosition.value.z <= t[j].imagePosition.value.z
    ensures ChooseSortMode(parsed) == Unsorted ==> t == parsed
  {
    var mode := ChooseSortMode(parsed);
    StableIsPermutation(parsed, t, mode);
    forall i | 0 <= i < |t|
      ensures t[i] in parsed
    {
      assert t[i] in multiset(t);
    }
    if mode == Unsorted {
      ConstantKeyKeepsOrder(parsed, t);
    }
  }

  /** A slice whose only attribute is its InstanceNumber, given as text. */
  function Numbered(n: string): Record
  {
    Record(Some(n), None, None, None, Single([]))
  }

  /** The key is the text of InstanceNumber, so instance 10 is put before
      instance 2. */
  lemma TextualInstanceOrder(t: seq<Record>)
    requires SortedBy(t, ChooseSortMode([Numbered("2"), Numbered("10")]))
    requires Stable([Numbered("2"), Numbered("10")], t, ChooseSortMode([Numbered("2"), Numbered("10")]))
    ensures t == [Numbered("10"), Numbered("2")]
  {
    var s, u := [Numbered("2"), Numbered("10")], [Numbered("10"), Numbered("2")];
    var mode := ChooseSortMode(s);
    assert mode == ByInstanceNumber;
    assert KeyOf(Numbered("10"), mode) == Text("10");
    assert KeyOf(Numbered("2"), mode) == Text("2");
    assert TextLe("10", "2");
    assert !TextLe("2", "10");
    SwapStable(s, 1, mode);
    assert s[0 := s[1]][1 := s[0]] == u;
    forall k
      ensures WithKey(u, mode, k) == WithKey(t, mode, k)
    {
      assert WithKey(s, mode, k) == WithKey(u, mode, k);
      assert WithKey(s, mode, k) == WithKey(t, mode, k);
    }
    assert SortedBy(u, mode);
    SortedStableUnique(u, t, mode);
  }

  // ---------------------------------------------------------------- volume

  /** The 2-D slices a record contributes: its image, or each of its frames. */
  function SlicesOf(r: Record): seq<Grid>
  {
    match r.pixels
    case Single(g) => [g]
    case Frames(fs) => fs
  }

  /** One slice for a 2-D pixel array, one per frame otherwise. */
  function FrameCount(r: Record): nat
  {
    match r.pixels
    case Single(_) => 1
    case Frames(fs) => |fs|
  }

  function TotalFrames(series: seq<Record>): nat
  {
    if series == [] then 0 else TotalFrames(series[..|series| - 1]) + FrameCount(series[|series| - 1])
  }

  /** The list get_image_array builds: every record's slices, record by record. */
  function Flatten(series: seq<Record>): seq<Grid>
  {
    if series == [] then [] else Flatten(series[..|series| - 1]) + SlicesOf(series[|series| - 1])
  }

  /** Flattening conserves the frame count. */
  lemma {:induction false} FlattenLength(series: seq<Record>)
    ensures |Flatten(series)| == TotalFrames(series)
  {
    if series != [] {
      FlattenLength(series[..|series| - 1]);
    }
  }

  /** Flattening a concatenation flattens each part in turn. */
  lemma {:induction false} FlattenConcat(s: seq<Record>, t: seq<Record>)
    ensures Flatten(s + t) == Flatten(s) + Flatten(t)
    decreases |t|
  {
    if t == [] {
      assert s + t == s;
    } else {
      var u, front, last := s + t, t[..|t| - 1], t[|t| - 1];
      assert u[..|u| - 1] == s + front && u[|u| - 1] == last;
      assert Flatten(u) == Flatten(s + front) + SlicesOf(last);
      FlattenConcat(s, front);
      assert Flatten(t) == Flatten(front) + SlicesOf(last);
      assert (Flatten(s) + Flatten(front)) + SlicesOf(last) == Flatten(s) + (Flatten(front) + SlicesOf(last));
    }
  }

  /** Frame i of record x lands right after the frames of the records before
      it: record order and frame order are both kept. */
  lemma {:induction false} FlattenAt(series: seq<Record>, x: int, i: int)
    requires 0 <= x < |series| && 0 <= i < FrameCount(series[x])
    ensures TotalFrames(series[..x]) + i < |Flatten(series)|
    ensures Flatten(series)[TotalFrames(series[..x]) + i] == SlicesOf(series[x])[i]
  {
    var init := series[..|series| - 1];
    assert init[..x] == series[..x] by {
      assert x <= |init|;
    }
    FlattenLength(init);
    if x == |series| - 1 {
      assert init == series[..x];
    } else {
      FlattenAt(init, x, i);
      assert init[x] == series[x];
    }
  }

  /** np.stack failures: nothing to stack, or slices of different shapes. */
  datatype StackError = NothingToStack | ShapeMismatch

  /** The shape of the first slice (rows, and the length of its first row). */
  function Rows(g: Grid): nat { |g| }
  function Cols(g: Grid): nat { if g == [] then 0 else |g[0]| }

  /** np.stack(slices, axis=0): a volume when there is at least one slice and
      all slices have one shape. */
  function Stack(slices: seq<Grid>): (r: Result<seq<Grid>, StackError>)
    ensures r.Ok? ==> r.value == slices && |slices| > 0
    ensures r.Ok? ==> forall k :: 0 <= k < |slices| ==> HasShape(slices[k], Rows(slices[0]), Cols(slices[0]))
    ensures r == Err(NothingToStack) <==> slices == []
    ensures r == Err(ShapeMismatch) <==>
              slices != [] && exists k :: 0 <= k < |slices| && !HasShape(slices[k], Rows(slices[0]), Cols(slices[0]))
  {
    if slices == [] then Err(NothingToStack)
    else if forall k :: 0 <= k < |slices| ==> HasShape(slices[k], Rows(slices[0]), Cols(slices[0])) then Ok(slices)
    else Err(ShapeMismatch)
  }

  /** get_image_array: append each record's slices, frame by frame, then stack. */
  method GetImageArray(series: seq<Record>) returns (r: Result<seq<Grid>, StackError>)
    ensures r == Stack(Flatten(series))
  {
    var images: seq<Grid> := [];
    var x := 0;
    while x < |series|
      invariant 0 <= x <= |series|
      invariant images == Flatten(series[..x])
    {
      assert series[..x + 1][..x] == series[..x];
      match series[x].pixels {
        case Single(g) =>
          images := images + [g];
        case Frames(fs) =>
          var i := 0;
          while i < |fs|
            invariant 0 <= i <= |fs|
            invariant images == Flatten(series[..x]) + fs[..i]
          {
            images := images + [fs[i]];
            i := i + 1;
          }
          assert fs[..|fs|] == fs;
      }
      x := x + 1;
    }
    assert series[..|series|] == series;
    r := Stack(images);
  }
}
