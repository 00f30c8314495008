/** Key expansion: the table of every one-byte XOR encoding of the search string. */
module XorKeys {
  import opened Bytes

  /** Number of distinct one-byte keys, hence of entries in the key table. */
  const NoOfKeys: nat := 256

  /** The search string with every byte XORed with the one-byte key `k`. */
  function Encode(p: seq<byte>, k: byte): (e: seq<byte>)
  {
    seq(|p|, j requires 0 <= j < |p| => Xor(p[j], k))
  }

  /** The intended key table: entry `k` is the search string encoded with key `k`,
      so that the index of an entry is its key. */
  function KeyTable(p: seq<byte>): (table: seq<seq<byte>>)
  {
    seq(NoOfKeys, k requires 0 <= k < NoOfKeys => Encode(p, k as byte))
  }

  /** The table of encoded search strings: one heap buffer per key. */
  datatype SearchStringSet = SearchStringSet(keys: array<array<byte>>, noOfKeys: nat)

  /** The byte strings currently held by the table's buffers, in key order. */
  ghost function Rows(table: SearchStringSet): (rows: seq<seq<byte>>)
    reads table.keys, set k | 0 <= k < table.keys.Length :: table.keys[k]
  {
    seq(table.keys.Length, k requires 0 <= k < table.keys.Length
          reads table.keys, set m | 0 <= m < table.keys.Length :: table.keys[m] => table.keys[k][..])
  }

  /** Builds the 256-entry table. A key width other than one byte is only warned
      about; the width is forced to one byte, so `bytesPerXor` has no effect. */
  method GenerateXorSearchStrings(searchString: seq<byte>, bytesPerXor: nat) returns (table: SearchStringSet)
    ensures table.noOfKeys == NoOfKeys && table.keys.Length == NoOfKeys
    ensures forall k :: 0 <= k < NoOfKeys ==> table.keys[k].Length == |searchString|
    ensures forall k, j :: 0 <= k < NoOfKeys && 0 <= j < |searchString| ==>
              table.keys[k][j] == Xor(searchString[j], k as byte)
    ensures Rows(table) == KeyTable(searchString)
    ensures fresh(table.keys) && forall k :: 0 <= k < NoOfKeys ==> fresh(table.keys[k])
  {
    var len := |searchString|;
    // Every slot is overwritten below; the placeholder only stands in for uninitialised memory.
    var placeholder := new byte[0];
    var keys := new array<byte>[NoOfKeys](_ => placeholder);
    var i := 0;
    while i < NoOfKeys
      invariant 0 <= i <= NoOfKeys
      invariant fresh(keys) && forall m :: 0 <= m < NoOfKeys ==> fresh(keys[m])
      invariant forall m :: 0 <= m < i ==> keys[m].Length == len
      invariant forall m :: 0 <= m < i ==> keys[m][..] == Encode(searchString, m as byte)
    {
      var key := i as byte;
      var row := new byte[len];
      // copy the plaintext into the fresh row, then XOR it in place
      forall j | 0 <= j < len {
        row[j] := searchString[j];
      }
      var j := 0;
      while j < len
        invariant 0 <= j <= len
        invariant forall t :: 0 <= t < j ==> row[t] == Xor(searchString[t], key)
        invariant forall t :: j <= t < len ==> row[t] == searchString[t]
        modifies row
      {
        row[j] := Xor(row[j], key);
        j := j + 1;
      }
      assert row[..] == Encode(searchString, key);
      keys[i] := row;
      i := i + 1;
    }
    table := SearchStringSet(keys, NoOfKeys);
    assert forall k :: 0 <= k < NoOfKeys ==> Rows(table)[k] == KeyTable(searchString)[k];
  }

  /** Decoding an encoded string with its own key gives the plaintext back. */
  lemma EncodeInvolutive(p: seq<byte>, k: byte)
    ensures Encode(Encode(p, k), k) == p
  {
    forall j | 0 <= j < |p|
      ensures Encode(Encode(p, k), k)[j] == p[j]
    {
      XorCancel(p[j], k);
    }
  }

  /** For a non-empty plaintext, distinct keys give distinct patterns. */
  lemma EncodeInjective(p: seq<byte>, k1: byte, k2: byte)
    requires |p| > 0
    ensures Encode(p, k1) == Encode(p, k2) <==> k1 == k2
  {
    if Encode(p, k1) == Encode(p, k2) {
      assert Xor(p[0], k1) == Xor(p[0], k2) by {
        assert Encode(p, k1)[0] == Encode(p, k2)[0];
      }
      XorRecoversKey(p[0], k1);
      XorRecoversKey(p[0], k2);
    }
  }

  /** The table holds 256 patterns of the plaintext's length, each decoding back to the
      plaintext with its own index, and pairwise distinct when the plaintext is non-empty. */
  lemma KeyTableProperties(p: seq<byte>)
    ensures |KeyTable(p)| == NoOfKeys
    ensures forall k :: 0 <= k < NoOfKeys ==> |KeyTable(p)[k]| == |p|
    ensures forall k :: 0 <= k < NoOfKeys ==> Encode(KeyTable(p)[k], k as byte) == p
    ensures |p| > 0 ==> forall a, b :: 0 <= a < b < NoOfKeys ==> KeyTable(p)[a] != KeyTable(p)[b]
  {
    forall k | 0 <= k < NoOfKeys
      ensures Encode(KeyTable(p)[k], k as byte) == p
    {
      EncodeInvolutive(p, k as byte);
    }
    if |p| > 0 {
      forall a, b | 0 <= a < b < NoOfKeys
        ensures KeyTable(p)[a] != KeyTable(p)[b]
      {
        EncodeInjective(p, a as byte, b as byte);
      }
    }
  }
}
