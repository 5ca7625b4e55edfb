/**
 The two bottom-up inclusion walks: `root_from_inclusion` of sm_bridge/tlog.py and
 `rfc9162_root_from_proof` of sm_bridge/trust/ans_scitt.py (section 2.1.3.2 of RFC 9162).
 They move through the same states and differ in their guards and in the final test.
 */
module ProofWalks {
  import opened ByteStrings
  import opened Wrappers
  import opened Bits
  import opened Tlog

  /** On which side of the running hash a sibling is placed. */
  datatype Side = Left | Right

  type Sides = seq<Side>

  datatype WalkError = BadIndex | PathTooLong | BadElement | TooShort

  function Combine(h: Hash, side: Side, sibling: Bytes, r: Bytes): Digest
  {
    if side.Left? then NodeHash(h, sibling, r) else NodeHash(h, r, sibling)
  }

  /** Hashing upward from `leaf`, one sibling per level, bottom level first. */
  function Fold(h: Hash, leaf: Bytes, sides: Sides, proof: seq<Bytes>): Bytes
    requires |sides| == |proof|
  {
    if proof == [] then leaf
    else
      var n := |proof| - 1;
      Combine(h, sides[n], proof[n], Fold(h, leaf, sides[..n], proof[..n]))
  }

  // ----- one step of either walk ----------------------------------------------------------

  /** The inner loop: shift until `fn` is odd or zero. */
  function Strip(fn: nat, sn: nat): (nat, nat)
  {
    if fn != 0 && fn % 2 == 0 then Strip(fn / 2, sn / 2) else (fn, sn)
  }

  function SideAt(fn: nat, sn: nat): Side
  {
    if fn == sn || fn % 2 == 1 then Left else Right
  }

  function Up(fn: nat, sn: nat): (nat, nat)
  {
    var (f, s) := if fn == sn || fn % 2 == 1 then Strip(fn, sn) else (fn, sn);
    (f / 2, s / 2)
  }

  function WalkSides(fn: nat, sn: nat, len: nat): (sides: Sides)
    ensures |sides| == len
    decreases len
  {
    if len == 0 then [] else [SideAt(fn, sn)] + WalkSides(Up(fn, sn).0, Up(fn, sn).1, len - 1)
  }

  function After(fn: nat, sn: nat, len: nat): (nat, nat)
    decreases len
  {
    if len == 0 then (fn, sn) else After(Up(fn, sn).0, Up(fn, sn).1, len - 1)
  }

  predicate AllDigests(proof: seq<Bytes>)
  {
    forall i :: 0 <= i < |proof| ==> |proof[i]| == 32
  }

  // ----- what the two procedures return ---------------------------------------------------

  function TlogWalk(h: Hash, leaf: Bytes, index: int, size: int, proof: seq<Bytes>): Result<Bytes, WalkError>
  {
    if size <= 0 || index < 0 || index >= size then Failure(BadIndex)
    else if !AllDigests(proof) then Failure(BadElement)
    else if After(index, size - 1, |proof|).1 != 0 then Failure(TooShort)
    else Success(Fold(h, leaf, WalkSides(index, size - 1, |proof|), proof))
  }

  const MAX_PROOF_PATH: nat := 64

  function ScittWalk(h: Hash, leaf: Bytes, index: int, size: int, path: seq<Bytes>): Result<Bytes, WalkError>
  {
    if size == 0 || index >= size || index < 0 then Failure(BadIndex)
    else if |path| > MAX_PROOF_PATH then Failure(PathTooLong)
    else if !AllDigests(path) then Failure(BadElement)
    else if After(index, size - 1, |path|).0 != 0 then Failure(TooShort)
    else Success(Fold(h, leaf, WalkSides(index, size - 1, |path|), path))
  }

  /** The state of either walk after `j` elements of `proof`. */
  ghost predicate WalkedTo(h: Hash, leaf: Bytes, index: nat, last: nat, proof: seq<Bytes>, j: nat,
                           fn: nat, sn: nat, r: Bytes)
  {
    && j <= |proof|
    && (fn, sn) == After(index, last, j)
    && r == Fold(h, leaf, WalkSides(index, last, j), proof[..j])
  }

  lemma {:induction false} WalkOneMore(fn: nat, sn: nat, j: nat)
    ensures WalkSides(fn, sn, j + 1) == WalkSides(fn, sn, j) + [SideAt(After(fn, sn, j).0, After(fn, sn, j).1)]
    ensures After(fn, sn, j + 1) == Up(After(fn, sn, j).0, After(fn, sn, j).1)
    decreases j
  {
    if j == 0 {
      assert WalkSides(Up(fn, sn).0, Up(fn, sn).1, 0) == [];
    } else {
      WalkOneMore(Up(fn, sn).0, Up(fn, sn).1, j - 1);
    }
  }

  lemma WalkStart(h: Hash, leaf: Bytes, index: nat, last: nat, proof: seq<Bytes>)
    ensures WalkedTo(h, leaf, index, last, proof, 0, index, last, leaf)
  {
  }

  lemma {:induction false} WalkStep(h: Hash, leaf: Bytes, index: nat, last: nat, proof: seq<Bytes>, j: nat, fn: nat, sn: nat, r: Bytes)
    requires j < |proof| && WalkedTo(h, leaf, index, last, proof, j, fn, sn, r)
    ensures WalkedTo(h, leaf, index, last, proof, j + 1, Up(fn, sn).0, Up(fn, sn).1,
                     Combine(h, SideAt(fn, sn), proof[j], r))
  {
    WalkOneMore(index, last, j);
    assert proof[..j + 1][..j] == proof[..j];
  }

  /** The inner `while` loop of both walks. */
  method StripLoop(fn0: nat, sn0: nat) returns (fn: nat, sn: nat)
    ensures (fn, sn) == Strip(fn0, sn0)
    ensures fn == 0 || fn % 2 == 1
    ensures exists k :: fn0 == fn * Pow2(k) && fn == ShiftRight(fn0, k) && sn == ShiftRight(sn0, k)
                        && (fn0 == 0 ==> k == 0)
  {
    fn, sn := fn0, sn0;
    ghost var k := 0;
    while fn != 0 && fn % 2 == 0
      invariant Strip(fn, sn) == Strip(fn0, sn0)
      invariant fn0 == fn * Pow2(k) && fn == ShiftRight(fn0, k) && sn == ShiftRight(sn0, k)
      invariant fn0 == 0 ==> k == 0
    {
      ShiftOnce(fn0, k);
      ShiftOnce(sn0, k);
      assert fn0 == fn / 2 * (2 * Pow2(k));
      fn, sn := fn / 2, sn / 2;
      k := k + 1;
    }
  }

  lemma {:induction false} ShiftOnce(a: nat, k: nat)
    ensures ShiftRight(a, k + 1) == ShiftRight(a, k) / 2
    decreases k
  {
    if k > 0 {
      ShiftOnce(a / 2, k - 1);
    }
  }

  method RootFromInclusion(h: Hash, leaf: Bytes, index: int, size: int, proof: seq<Bytes>)
    returns (result: Result<Bytes, WalkError>)
    ensures result == TlogWalk(h, leaf, index, size, proof)
  {
    hide Fold, WalkSides, After, NodeHash;
    if size <= 0 || index < 0 || index >= size {
      return Failure(BadIndex);
    }
    var fn: nat, sn: nat, r := index, size - 1, leaf;
    WalkStart(h, leaf, index, size - 1, proof);
    for j := 0 to |proof|
      invariant AllDigests(proof[..j])
      invariant WalkedTo(h, leaf, index, size - 1, proof, j, fn, sn, r)
    {
      var p := proof[j];
      if |p| != 32 {
        return Failure(BadElement);
      }
      WalkStep(h, leaf, index, size - 1, proof, j, fn, sn, r);
      if fn == sn || fn % 2 == 1 {
        r := NodeHash(h, p, r);
        if fn % 2 == 0 {
          fn, sn := StripLoop(fn, sn);
        }
      } else {
        r := NodeHash(h, r, p);
      }
      fn, sn := fn / 2, sn / 2;
    }
    assert proof[..|proof|] == proof;
    if sn != 0 {
      return Failure(TooShort);
    }
    return Success(r);
  }

  method Rfc9162RootFromProof(h: Hash, leafHash: Bytes, leafIndex: int, treeSize: int, path: seq<Bytes>)
    returns (result: Result<Bytes, WalkError>)
    ensures result == ScittWalk(h, leafHash, leafIndex, treeSize, path)
    ensures result == Failure(PathTooLong) <==> 0 <= leafIndex < treeSize && |path| > 64
  {
    hide Fold, WalkSides, After, Strip, NodeHash;
    if treeSize == 0 { return Failure(BadIndex); }
    if leafIndex >= treeSize { return Failure(BadIndex); }
    if leafIndex < 0 { return Failure(BadIndex); }
    if |path| > MAX_PROOF_PATH { return Failure(PathTooLong); }
    var fn: nat, sn: nat, r := leafIndex, treeSize - 1, leafHash;
    WalkStart(h, leafHash, leafIndex, treeSize - 1, path);
    for j := 0 to |path|
      invariant AllDigests(path[..j])
      invariant WalkedTo(h, leafHash, leafIndex, treeSize - 1, path, j, fn, sn, r)
    {
      var p := path[j];
      if |p| != 32 {
        return Failure(BadElement);
      }
      WalkStep(h, leafHash, leafIndex, treeSize - 1, path, j, fn, sn, r);
      if fn % 2 == 1 || fn == sn {
        r := NodeHash(h, p, r);
        fn, sn := StripLoop(fn, sn);
      } else {
        r := NodeHash(h, r, p);
      }
      fn, sn := fn / 2, sn / 2;
    }
    assert path[..|path|] == path;
    if fn != 0 {
      return Failure(TooShort);
    }
    return Success(r);
  }

  // ----- leaf paths, top-down, and the walk's directions, bottom-up ------------------------

  /** The sides on the way up from leaf `m` of a tree of `n` leaves, read off the tree's shape. */
  function Path(m: nat, n: nat): Sides
    requires m < n
    decreases n
  {
    if n == 1 then []
    else
      var k := Split(n);
      if m < k then Path(m, k) + [Right] else Path(m - k, n - k) + [Left]
  }

  /** The same sides read off the bits of the index `fn` and the last index `sn`: a level where
      the node is a left-over last node (`fn == sn`, even) takes no sibling. */
  function BitSides(fn: nat, sn: nat): Sides
    requires fn <= sn
    decreases sn
  {
    if sn == 0 then []
    else if fn % 2 == 1 then [Left] + BitSides(fn / 2, sn / 2)
    else if fn < sn then [Right] + BitSides(fn / 2, sn / 2)
    else BitSides(fn / 2, sn / 2)
  }

  function Lefts(k: nat): (sides: Sides)
    ensures |sides| == k
  {
    seq(k, _ => Left)
  }

  lemma {:induction false} UpInRange(fn: nat, sn: nat)
    requires fn <= sn
    ensures Up(fn, sn).0 <= Up(fn, sn).1
  {
    if fn == sn && fn != 0 && fn % 2 == 0 {
      StripEqual(fn);
    }
  }

  lemma {:induction false} StripEqual(fn: nat)
    ensures Strip(fn, fn).0 == Strip(fn, fn).1
    ensures fn > 0 ==> Strip(fn, fn).0 % 2 == 1 && BitSides(fn, fn) == BitSides(Strip(fn, fn).0, Strip(fn, fn).0)
  {
    if fn != 0 && fn % 2 == 0 {
      StripEqual(fn / 2);
    }
  }

  lemma BitSidesStep(fn: nat, sn: nat)
    requires fn <= sn && sn > 0
    ensures Up(fn, sn).0 <= Up(fn, sn).1
    ensures BitSides(fn, sn) == [SideAt(fn, sn)] + BitSides(Up(fn, sn).0, Up(fn, sn).1)
  {
    if fn == sn {
      StripEqual(fn);
    }
  }

  /** The walk follows `BitSides`, then keeps putting siblings on the left; `sn` reaches zero
      exactly when `BitSides` has been used up. */
  lemma {:induction false} WalkFollowsBits(fn: nat, sn: nat, len: nat)
    requires fn <= sn
    ensures WalkSides(fn, sn, len) == (BitSides(fn, sn) + Lefts(len))[..len]
    ensures After(fn, sn, len).0 <= After(fn, sn, len).1
    ensures After(fn, sn, len).1 == 0 <==> |BitSides(fn, sn)| <= len
    decreases len
  {
    if sn > 0 {
      BitSidesStep(fn, sn);
    }
    if len > 0 {
      UpInRange(fn, sn);
      var (f, s) := Up(fn, sn);
      WalkFollowsBits(f, s, len - 1);
    }
  }

  /** Below the split the bits of `m` alone decide, whatever the larger `s` is. */
  lemma {:induction false} BitsBelowSplit(m: nat, s: nat, d: nat)
    requires m < Pow2(d) <= s < 2 * Pow2(d)
    ensures BitSides(m, s) == BitSides(m, Pow2(d) - 1) + [Right]
    ensures |BitSides(m, Pow2(d) - 1)| == d
    decreases d
  {
    if d > 0 {
      BitsBelowSplit(m / 2, s / 2, d - 1);
      assert (Pow2(d) - 1) / 2 == Pow2(d - 1) - 1;
    } else {
      assert BitSides(0, 1) == [Right] + BitSides(0, 0);
    }
  }

  /** Above the split the leading bit adds one left sibling at the top. */
  lemma {:induction false} BitsAboveSplit(m: nat, s: nat, d: nat)
    requires m <= s < Pow2(d)
    ensures BitSides(Pow2(d) + m, Pow2(d) + s) == BitSides(m, s) + [Left]
    decreases d
  {
    if d > 0 {
      BitsAboveSplit(m / 2, s / 2, d - 1);
      assert Pow2(d) == 2 * Pow2(d - 1);
      assert (Pow2(d) + m) / 2 == Pow2(d - 1) + m / 2 && (Pow2(d) + s) / 2 == Pow2(d - 1) + s / 2;
    } else {
      assert BitSides(1, 1) == [Left] + BitSides(0, 0);
    }
  }

  /** The top-down tree and the bottom-up bit walk agree on every leaf's path. */
  lemma {:induction false} PathIsBits(m: nat, n: nat)
    requires m < n
    ensures Path(m, n) == BitSides(m, n - 1)
    decreases n
  {
    hide Pow2, SplitExp;
    if n > 1 {
      var d := SplitExp(n);
      var k := Pow2(d);
      if m < k {
        PathIsBits(m, k);
        BitsBelowSplit(m, n - 1, d);
      } else {
        PathIsBits(m - k, n - k);
        BitsAboveSplit(m - k, n - k - 1, d);
      }
    }
  }
}
