/** What scanning a file with the XOR key table finds, and how a hit decodes. */
module XorSearch {
  import opened Bytes
  import opened XorKeys
  import opened Results
  import opened WindowScan

  datatype Option<T> = None | Some(value: T)

  /** The scan of `file` for the plaintext `p` with the table built from `p`. */
  function XorScan(file: seq<byte>, p: seq<byte>): (hits: seq<SearchResult>)
  {
    Scan(file, |p|, KeyTable(p))
  }

  /** What the printer shows for result `r`: the `after` bytes from its offset, each
      XORed with its key, or None when the file ends first (the printer then stops
      the process). */
  function Decoded(file: seq<byte>, r: SearchResult, after: nat): (shown: Option<seq<byte>>)
  {
    if r.offset + after <= |file| then Some(Encode(file[r.offset..r.offset + after], r.byteKey)) else None
  }

  /** Builds the key table for `searchString` and scans `file` with it, as the
      program does before printing. The results are exactly the windows holding the
      encoded plaintext, strictly ordered by offset, then key. */
  method SearchFile(file: seq<byte>, searchString: seq<byte>, keyspace: nat)
    returns (results: array<SearchResult>, noResults: nat)
    requires 0 < |searchString|
    ensures fresh(results) && noResults <= results.Length
    ensures results[..noResults] == XorScan(file, searchString)
    ensures StrictlyOrdered(results[..noResults])
    ensures forall r :: r in results[..noResults] <==>
              r.offset + |searchString| < |file| &&
              file[r.offset..r.offset + |searchString|] == Encode(searchString, r.byteKey)
  {
    var table := GenerateXorSearchStrings(searchString, keyspace);
    results, noResults := SearchWithSet(file, searchString, table);
    XorScanOrdered(file, searchString);
    forall r
      ensures r in results[..noResults] <==>
                r.offset + |searchString| < |file| &&
                file[r.offset..r.offset + |searchString|] == Encode(searchString, r.byteKey)
    {
      XorScanExact(file, searchString, r);
    }
  }

  /** Entry `k` of the table matches the window at offset `i` exactly when those
      `|p|` bytes are the plaintext encoded with `k`. */
  lemma PatternMatches(file: seq<byte>, p: seq<byte>, i: nat, k: byte)
    ensures WindowMatches(file, i, |p|, KeyTable(p)[k as int]) <==>
              i + |p| <= |file| && file[i..i + |p|] == Encode(p, k)
  {
    assert KeyTable(p)[k as int] == Encode(p, k);
    assert Encode(p, k)[..|p|] == Encode(p, k);
  }

  /** Soundness and completeness: `(offset, key)` is reported exactly when the window
      at that offset ends before the last byte of the file and holds the plaintext
      encoded with that key. */
  lemma XorScanExact(file: seq<byte>, p: seq<byte>, r: SearchResult)
    ensures r in XorScan(file, p) <==>
              r.offset + |p| < |file| && file[r.offset..r.offset + |p|] == Encode(p, r.byteKey)
  {
    ScanMember(file, |p|, KeyTable(p), r);
    PatternMatches(file, p, r.offset, r.byteKey);
  }

  /** Every reported window decodes with its key to the plaintext. */
  lemma XorScanDecodes(file: seq<byte>, p: seq<byte>, r: SearchResult)
    requires r in XorScan(file, p)
    ensures r.offset + |p| < |file| && Encode(file[r.offset..r.offset + |p|], r.byteKey) == p
  {
    XorScanExact(file, p, r);
    EncodeInvolutive(p, r.byteKey);
  }

  /** Printing `after` bytes of a result reaches end of file exactly when the file
      ends first; otherwise the bytes shown begin with the plaintext, and are its
      prefix when `after` does not exceed its length. */
  lemma DecodedIsPlaintext(file: seq<byte>, p: seq<byte>, r: SearchResult, after: nat)
    requires r in XorScan(file, p)
    ensures Decoded(file, r, after).Some? <==> r.offset + after <= |file|
    ensures after <= |p| ==> Decoded(file, r, after) == Some(p[..after])
    ensures Decoded(file, r, after).Some? && |p| <= after ==> Decoded(file, r, after).value[..|p|] == p
  {
    XorScanDecodes(file, p, r);
    var window := file[r.offset..r.offset + |p|];
    var m := if after <= |p| then after else |p|;
    if r.offset + after <= |file| {
      var shown := Encode(file[r.offset..r.offset + after], r.byteKey);
      assert file[r.offset..r.offset + m] == window[..m];
      assert file[r.offset..r.offset + m] == file[r.offset..r.offset + after][..m];
      assert shown[..m] == Encode(window[..m], r.byteKey);
      assert Encode(window[..m], r.byteKey) == Encode(window, r.byteKey)[..m];
    }
  }

  /** The results come strictly ordered by offset, then key. */
  lemma XorScanOrdered(file: seq<byte>, p: seq<byte>)
    ensures StrictlyOrdered(XorScan(file, p))
  {
    ScanOrdered(file, |p|, KeyTable(p));
  }

  /** For a non-empty plaintext at most one key is reported per offset. */
  lemma XorScanOneKeyPerOffset(file: seq<byte>, p: seq<byte>)
    requires |p| > 0
    ensures forall a, b :: 0 <= a < b < |XorScan(file, p)| ==>
              XorScan(file, p)[a].offset != XorScan(file, p)[b].offset
  {
    var s := XorScan(file, p);
    XorScanOrdered(file, p);
    forall a, b | 0 <= a < b < |s|
      ensures s[a].offset != s[b].offset
    {
      if s[a].offset == s[b].offset {
        XorScanExact(file, p, s[a]);
        XorScanExact(file, p, s[b]);
        EncodeInjective(p, s[a].byteKey, s[b].byteKey);
        assert false;
      }
    }
  }

  /** A file shorter than the plaintext cannot fill the first window, and one exactly
      as long as the plaintext has no compared offset: both give no results. */
  lemma ShortFileNoResults(file: seq<byte>, p: seq<byte>)
    requires |file| <= |p|
    ensures XorScan(file, p) == []
  {
    if XorScan(file, p) != [] {
      XorScanExact(file, p, XorScan(file, p)[0]);
    }
  }

  /** The window ending at the last byte of the file is filled but never compared:
      an encoded plaintext there is not reported. */
  lemma FinalWindowDropped(file: seq<byte>, p: seq<byte>, k: byte)
    requires |p| <= |file| && file[|file| - |p|..] == Encode(p, k)
    ensures WindowMatches(file, |file| - |p|, |p|, KeyTable(p)[k as int])
    ensures SearchResult(|file| - |p|, k) !in XorScan(file, p)
  {
    PatternMatches(file, p, |file| - |p|, k);
    XorScanExact(file, p, SearchResult(|file| - |p|, k));
  }

  /** A file that starts with the plaintext encoded with `k` and has at least one more
      byte reports `(0, k)` first, and no other key at offset 0. */
  lemma EncodedPrefixReportedFirst(p: seq<byte>, k: byte, rest: seq<byte>)
    requires |p| > 0 && |rest| > 0
    ensures XorScan(Encode(p, k) + rest, p) != []
    ensures XorScan(Encode(p, k) + rest, p)[0] == SearchResult(0, k)
    ensures forall r :: r in XorScan(Encode(p, k) + rest, p) && r.offset == 0 ==> r.byteKey == k
  {
    var file := Encode(p, k) + rest;
    var s := XorScan(file, p);
    assert file[0..|p|] == Encode(p, k);
    XorScanExact(file, p, SearchResult(0, k));
    forall r | r in s && r.offset == 0
      ensures r.byteKey == k
    {
      XorScanExact(file, p, r);
      EncodeInjective(p, r.byteKey, k);
    }
    XorScanOrdered(file, p);
    assert s[0] in s;
    assert s[0] == SearchResult(0, k) by {
      var idx :| 0 <= idx < |s| && s[idx] == SearchResult(0, k);
      if idx > 0 {
        assert Before(s[0], s[idx]);
      }
    }
  }

  /** A plaintext of two equal bytes 0x41 against the bytes 0x00 0x00 at offset 5:
      exactly the key 0x41 is reported there. */
  lemma RepeatedByteCollision(file: seq<byte>)
    requires |file| > 7 && file[5] == 0 && file[6] == 0
    ensures SearchResult(5, 0x41) in XorScan(file, [0x41, 0x41])
    ensures forall k: byte :: SearchResult(5, k) in XorScan(file, [0x41, 0x41]) ==> k == 0x41
  {
    var p: seq<byte> := [0x41, 0x41];
    XorSelf(0x41);
    assert file[5..7] == Encode(p, 0x41);
    XorScanExact(file, p, SearchResult(5, 0x41));
    forall k: byte | SearchResult(5, k) in XorScan(file, p)
      ensures k == 0x41
    {
      XorScanExact(file, p, SearchResult(5, k));
      EncodeInjective(p, k, 0x41);
    }
  }
}
