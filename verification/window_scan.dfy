/** The rolling-window scan of a file against every pattern of a key table. */
module WindowScan {
  import opened Bytes
  import opened XorKeys
  import opened Results

  /** The key recorded for table index `k`: the index truncated to a byte. */
  function KeyByte(k: nat): (key: byte)
  {
    (k % 256) as byte
  }

  /** The window of `len` bytes at offset `i` lies inside the file and equals the
      first `len` bytes of `pattern`. */
  predicate WindowMatches(file: seq<byte>, i: nat, len: nat, pattern: seq<byte>)
  {
    i + len <= |file| && len <= |pattern| && pattern[..len] == file[i..i + len]
  }

  /** The hits at offset `i` against the first `m` patterns, in table order. */
  function HitsAt(file: seq<byte>, len: nat, patterns: seq<seq<byte>>, i: nat, m: nat): (hits: seq<SearchResult>)
    requires m <= |patterns|
  {
    if m == 0 then []
    else HitsAt(file, len, patterns, i, m - 1) +
         (if WindowMatches(file, i, len, patterns[m - 1]) then [SearchResult(i, KeyByte(m - 1))] else [])
  }

  /** The hits at the offsets below `n`, offset by offset. */
  function HitsBelow(file: seq<byte>, len: nat, patterns: seq<seq<byte>>, n: nat): (hits: seq<SearchResult>)
  {
    if n == 0 then []
    else HitsBelow(file, len, patterns, n - 1) + HitsAt(file, len, patterns, n - 1, |patterns|)
  }

  /** How many offsets the scan compares: none when the file is shorter than the
      window, otherwise every offset except the last full window's. */
  function Examined(fileLen: nat, len: nat): (count: nat)
  {
    if fileLen < len then 0 else fileLen - len
  }

  /** Everything the scan reports for `file`, window length `len` and table `patterns`. */
  function Scan(file: seq<byte>, len: nat, patterns: seq<seq<byte>>): (hits: seq<SearchResult>)
  {
    HitsBelow(file, len, patterns, Examined(|file|, len))
  }

  /** `a` comes strictly before `b` by offset, then by key. */
  predicate Before(a: SearchResult, b: SearchResult)
  {
    a.offset < b.offset || (a.offset == b.offset && a.byteKey < b.byteKey)
  }

  predicate StrictlyOrdered(s: seq<SearchResult>)
  {
    forall a, b :: 0 <= a < b < |s| ==> Before(s[a], s[b])
  }

  /** Compares the window at offset `i` with every pattern of the table, in table
      order, and appends a result for each pattern whose first `window.Length` bytes
      equal the window. */
  method CompareWindow(window: array<byte>, table: SearchStringSet, i: nat, buf: ResultBuffer,
                       ghost file: seq<byte>, ghost patterns: seq<seq<byte>>)
    requires table.keys.Length == table.noOfKeys
    requires forall k :: 0 <= k < table.noOfKeys ==> window.Length <= table.keys[k].Length
    requires patterns == Rows(table)
    requires i + window.Length <= |file| && window[..] == file[i..i + window.Length]
    requires buf.Valid()
    modifies buf, buf.data
    ensures buf.Valid() && (buf.data == old(buf.data) || fresh(buf.data))
    ensures buf.Contents() == old(buf.Contents()) + HitsAt(file, window.Length, patterns, i, |patterns|)
  {
    var len := window.Length;
    var keyIdx := 0;
    while keyIdx < table.noOfKeys
      invariant keyIdx <= table.noOfKeys
      invariant buf.Valid() && (buf.data == old(buf.data) || fresh(buf.data))
      invariant buf.Contents() == old(buf.Contents()) + HitsAt(file, len, patterns, i, keyIdx)
    {
      var coded := table.keys[keyIdx];
      assert patterns[keyIdx] == coded[..];
      if coded[..len] == window[..] {
        buf.Append(SearchResult(i, KeyByte(keyIdx)));
      }
      keyIdx := keyIdx + 1;
    }
  }

  /** Rolls the window one byte to the left and stores `next` in its last slot. */
  method RollWindow(window: array<byte>, next: byte)
    requires 0 < window.Length
    modifies window
    ensures window[..] == old(window[1..]) + [next]
  {
    var j := 0;
    while j < window.Length - 1
      invariant j <= window.Length - 1
      invariant forall t :: 0 <= t < j ==> window[t] == old(window[t + 1])
      invariant forall t :: j <= t < window.Length ==> window[t] == old(window[t])
    {
      window[j] := window[j + 1];
      j := j + 1;
    }
    window[window.Length - 1] := next;
  }

  /** Dropping the first byte of the window at offset `i` and appending the byte after
      it gives the window at offset `i + 1`. */
  lemma NextWindow(file: seq<byte>, i: nat, len: nat)
    requires 0 < len && i + len < |file|
    ensures file[i..i + len][1..] + [file[i + len]] == file[i + 1..i + 1 + len]
  {
  }

  /** Slides a window of `|searchString|` bytes over `file` and returns the results
      array with the number of entries in use. A file shorter than the window
      cannot fill it and yields no results. */
  method SearchWithSet(file: seq<byte>, searchString: seq<byte>, table: SearchStringSet)
    returns (results: array<SearchResult>, noResults: nat)
    requires 0 < |searchString|
    requires table.keys.Length == table.noOfKeys
    requires forall k :: 0 <= k < table.noOfKeys ==> |searchString| <= table.keys[k].Length
    ensures fresh(results) && noResults <= results.Length
    ensures results[..noResults] == Scan(file, |searchString|, Rows(table))
  {
    var len := |searchString|;
    ghost var patterns := Rows(table);
    var buf := new ResultBuffer();
    var window := new byte[len];
    if |file| < len {
      // the initial window cannot be filled
      return buf.data, buf.count;
    }
    forall j | 0 <= j < len {
      window[j] := file[j];
    }
    var i := 0;
    while i < |file| - len
      invariant i <= |file| - len
      invariant window.Length == len && window[..] == file[i..i + len]
      invariant buf.Valid() && fresh(buf) && fresh(buf.data)
      invariant buf.Contents() == HitsBelow(file, len, patterns, i)
    {
      CompareWindow(window, table, i, buf, file, patterns);
      assert buf.Contents() == HitsBelow(file, len, patterns, i + 1);
      RollWindow(window, file[i + len]);
      NextWindow(file, i, len);
      i := i + 1;
    }
    results, noResults := buf.data, buf.count;
  }

  /** The results at offset `i` against the first `m` patterns are exactly the
      matching patterns among them, each recorded with its own index as key. */
  lemma {:induction false} HitsAtMember(file: seq<byte>, len: nat, patterns: seq<seq<byte>>, i: nat, m: nat,
                                        r: SearchResult)
    requires m <= |patterns| <= 256
    ensures r in HitsAt(file, len, patterns, i, m) <==>
              r.offset == i && (r.byteKey as int) < m && WindowMatches(file, i, len, patterns[r.byteKey as int])
  {
    if m > 0 {
      HitsAtMember(file, len, patterns, i, m - 1, r);
      assert KeyByte(m - 1) as int == m - 1;
    }
  }

  /** The results at one offset are in strictly increasing key order. */
  lemma {:induction false} HitsAtOrdered(file: seq<byte>, len: nat, patterns: seq<seq<byte>>, i: nat, m: nat)
    requires m <= |patterns| <= 256
    ensures StrictlyOrdered(HitsAt(file, len, patterns, i, m))
  {
    if m > 0 {
      var prefix := HitsAt(file, len, patterns, i, m - 1);
      HitsAtOrdered(file, len, patterns, i, m - 1);
      forall r | r in prefix
        ensures r.offset == i && (r.byteKey as int) < m - 1
      {
        HitsAtMember(file, len, patterns, i, m - 1, r);
      }
      assert KeyByte(m - 1) as int == m - 1;
    }
  }

  /** The results below offset `n` are exactly the (offset, key) pairs with a
      compared offset below `n` whose pattern matches the window there. */
  lemma {:induction false} HitsBelowMember(file: seq<byte>, len: nat, patterns: seq<seq<byte>>, n: nat,
                                           r: SearchResult)
    requires |patterns| <= 256
    ensures r in HitsBelow(file, len, patterns, n) <==>
              r.offset < n && (r.byteKey as int) < |patterns| &&
              WindowMatches(file, r.offset, len, patterns[r.byteKey as int])
  {
    if n > 0 {
      HitsBelowMember(file, len, patterns, n - 1, r);
      HitsAtMember(file, len, patterns, n - 1, |patterns|, r);
    }
  }

  /** The results below offset `n` are strictly ordered by offset, then key. */
  lemma {:induction false} HitsBelowOrdered(file: seq<byte>, len: nat, patterns: seq<seq<byte>>, n: nat)
    requires |patterns| <= 256
    ensures StrictlyOrdered(HitsBelow(file, len, patterns, n))
  {
    if n > 0 {
      var earlier := HitsBelow(file, len, patterns, n - 1);
      var last := HitsAt(file, len, patterns, n - 1, |patterns|);
      HitsBelowOrdered(file, len, patterns, n - 1);
      HitsAtOrdered(file, len, patterns, n - 1, |patterns|);
      forall x, y | x in earlier && y in last
        ensures Before(x, y)
      {
        HitsBelowMember(file, len, patterns, n - 1, x);
        HitsAtMember(file, len, patterns, n - 1, |patterns|, y);
      }
      OrderedConcat(earlier, last);
      assert HitsBelow(file, len, patterns, n) == earlier + last;
    }
  }

  lemma OrderedConcat(s: seq<SearchResult>, t: seq<SearchResult>)
    requires StrictlyOrdered(s) && StrictlyOrdered(t)
    requires forall x, y :: x in s && y in t ==> Before(x, y)
    ensures StrictlyOrdered(s + t)
  {
    forall a, b | 0 <= a < b < |s + t|
      ensures Before((s + t)[a], (s + t)[b])
    {
      if b < |s| {
      } else if a >= |s| {
        assert (s + t)[a] == t[a - |s|] && (s + t)[b] == t[b - |s|];
      } else {
        assert (s + t)[a] in s && (s + t)[b] in t;
      }
    }
  }

  /** A result is reported exactly when its offset is compared (the window there ends
      strictly before the end of the file), its key indexes the table, and that
      pattern matches the window. */
  lemma ScanMember(file: seq<byte>, len: nat, patterns: seq<seq<byte>>, r: SearchResult)
    requires |patterns| <= 256
    ensures r in Scan(file, len, patterns) <==>
              r.offset + len < |file| && (r.byteKey as int) < |patterns| &&
              WindowMatches(file, r.offset, len, patterns[r.byteKey as int])
  {
    HitsBelowMember(file, len, patterns, Examined(|file|, len), r);
  }

  /** The scan reports its results strictly ordered by offset, then key. */
  lemma ScanOrdered(file: seq<byte>, len: nat, patterns: seq<seq<byte>>)
    requires |patterns| <= 256
    ensures StrictlyOrdered(Scan(file, len, patterns))
  {
    HitsBelowOrdered(file, len, patterns, Examined(|file|, len));
  }
}
