/** Required-field presence packed into 32-bit words, and what the final word-and-mask check decides. */
module Required {
  import opened Bits
  import opened Schema
  import opened Decode

  const ALLBITS: nat := 0xFFFF_FFFF

  /** Two 32-bit words whose bit `k` is set exactly for the `k` in `met`. */
  ghost predicate Tracks(words: seq<nat>, met: set<nat>) {
    && |words| == 2
    && words[0] < Pow2(32) && words[1] < Pow2(32)
    && forall k: nat | k < MAX_REQUIRED :: Bit(words[k / 32], k % 32) <==> k in met
  }

  lemma NothingMet()
    ensures Tracks([0, 0], {})
  {
    hide Bit, Pow2;
    forall k: nat | k < MAX_REQUIRED ensures !Bit([0, 0][k / 32], k % 32) { ZeroBit(k % 32); }
  }

  lemma ZeroBit(k: nat)
    ensures !Bit(0, k)
  {
    DivUnique(0, Pow2(k), 0, 0);
  }

  lemma Pow2Below(n: nat)
    requires n < 32
    ensures Pow2(n) < Pow2(32)
  {
    Pow2Monotone(n, 31);
    Pow2Sum(31, 1);
  }

  /** OR-ing one bit into its word adds one required field. */
  lemma OrMarks(words: seq<nat>, met: set<nat>, index: nat)
    requires Tracks(words, met) && index < MAX_REQUIRED
    ensures Tracks(words[index / 32 := BitOr(words[index / 32], Pow2(index % 32))], met + {index})
  {
    hide BitOr, Bit, Pow2;
    var w := index / 32;
    var words' := words[w := BitOr(words[w], Pow2(index % 32))];
    Pow2Below(index % 32);
    OrBound(words[w], Pow2(index % 32), 32);
    forall k: nat | k < MAX_REQUIRED ensures Bit(words'[k / 32], k % 32) <==> k in met + {index} {
      if k / 32 == w {
        OrBits(words[w], Pow2(index % 32), k % 32);
        OneBit(index % 32, k % 32);
      }
    }
  }

  /** The branch of pb_decode_noinit that records a required field. */
  method MarkSeen(words: array<nat>, index: nat, ghost met: set<nat>)
    requires words.Length == 2 && Tracks(words[..], met)
    modifies words
    ensures Tracks(words[..], if index < MAX_REQUIRED then met + {index} else met)
  {
    if index < MAX_REQUIRED {
      OrMarks(words[..], met, index);
      Pow2Below(index % 32);
      ghost var after := words[..][index / 32 := BitOr(words[index / 32], Pow2(index % 32))];
      words[index / 32] := BitOr(words[index / 32], Pow2(index % 32));
      assert words[..] == after;
    }
  }

  /** `met` covers the first `n` required fields. */
  ghost predicate AllMet(met: set<nat>, n: nat) {
    forall k: nat | k < n :: k in met
  }

  lemma WordFull(words: seq<nat>, met: set<nat>, i: nat)
    requires Tracks(words, met) && i < 2
    ensures words[i] == ALLBITS <==> forall k: nat | 32 * i <= k < 32 * i + 32 :: k in met
  {
    hide Bit, Pow2;
    Pow2At32();
    LowMask(words[i], 32, 32);
    forall k: nat | k < 32 ensures Bit(words[i], k) <==> 32 * i + k in met {
      assert (32 * i + k) / 32 == i && (32 * i + k) % 32 == k;
      assert Bit(words[(32 * i + k) / 32], (32 * i + k) % 32) <==> 32 * i + k in met;
    }
    if words[i] == ALLBITS {
      forall k: nat | 32 * i <= k < 32 * i + 32 ensures k in met { assert Bit(words[i], k - 32 * i); }
    }
    if forall k: nat | 32 * i <= k < 32 * i + 32 :: k in met {
      forall k: nat | k < 32 ensures Bit(words[i], k) <==> k < 32 { assert 32 * i + k in met; }
    }
  }

  lemma WordPart(words: seq<nat>, met: set<nat>, i: nat, r: nat)
    requires Tracks(words, met) && i < 2 && 0 < r < 32
    requires forall k | k in met :: k < 32 * i + r
    ensures ALLBITS / Pow2(32 - r) == Pow2(r) - 1
    ensures words[i] == ALLBITS / Pow2(32 - r) <==> forall k: nat | 32 * i <= k < 32 * i + r :: k in met
  {
    hide Bit, Pow2;
    Pow2At32();
    Pow2Sum(r, 32 - r);
    var p, q := Pow2(r), Pow2(32 - r);
    assert ALLBITS == (p - 1) * q + (q - 1) by { assert (p - 1) * q == p * q - q; }
    DivUnique(ALLBITS, q, p - 1, q - 1);
    LowMask(words[i], r, 32);
    forall k: nat | k < 32 ensures Bit(words[i], k) <==> 32 * i + k in met {
      assert (32 * i + k) / 32 == i && (32 * i + k) % 32 == k;
      assert Bit(words[(32 * i + k) / 32], (32 * i + k) % 32) <==> 32 * i + k in met;
    }
    if words[i] == p - 1 {
      forall k: nat | 32 * i <= k < 32 * i + r ensures k in met {
        assert Bit(words[i], k - 32 * i) <==> k - 32 * i < r;
      }
    }
    if forall k: nat | 32 * i <= k < 32 * i + r :: k in met {
      forall k: nat | k < 32 ensures Bit(words[i], k) <==> k < r { assert 32 * i + k in met <==> k < r; }
    }
  }

  /** The check at the end of pb_decode_noinit: whole words first, then the remaining bits. It passes exactly when
      each of the first min(64, count) required fields was met. */
  method CheckRequired(words: array<nat>, count: nat, ghost met: set<nat>) returns (ok: bool)
    requires words.Length == 2 && Tracks(words[..], met)
    requires forall k | k in met :: k < count && k < MAX_REQUIRED
    ensures ok <==> AllMet(met, if count > MAX_REQUIRED then MAX_REQUIRED else count)
  {
    var n := if count > MAX_REQUIRED then MAX_REQUIRED else count;
    if n > 0 {
      for i := 0 to n / 32
        invariant AllMet(met, 32 * i)
      {
        WordFull(words[..], met, i);
        if words[i] != ALLBITS { return false; }
      }
      if n % 32 != 0 {
        WordPart(words[..], met, n / 32, n % 32);
        if words[n / 32] != ALLBITS / Pow2(32 - n % 32) { return false; }
      }
    }
    return true;
  }

  // ---------------------------------------------------------------- required indices of fields

  /** The required indices the tracker holds for the fields in `seen`. */
  ghost function TrackedIndices(fields: seq<Field>, seen: set<nat>): (met: set<nat>)
    ensures forall k :: k in met ==> k < MAX_REQUIRED
  {
    set i | i in seen && i < |fields| && fields[i].rule.Required? && RequiredBefore(fields, i) < MAX_REQUIRED ::
      RequiredBefore(fields, i)
  }

  lemma {:induction false} RequiredMonotone(fields: seq<Field>, i: nat, j: nat)
    requires i <= j <= |fields|
    ensures RequiredBefore(fields, i) <= RequiredBefore(fields, j)
    ensures i < j && fields[i].rule.Required? ==> RequiredBefore(fields, i) < RequiredBefore(fields, j)
    decreases j
  {
    if i < j { RequiredMonotone(fields, i, j - 1); }
  }

  lemma RequiredDistinct(fields: seq<Field>, i: nat, j: nat)
    requires i < |fields| && j < |fields| && fields[i].rule.Required? && fields[j].rule.Required?
    requires RequiredBefore(fields, i) == RequiredBefore(fields, j)
    ensures i == j
  {
    if i < j { RequiredMonotone(fields, i, j); }
    if j < i { RequiredMonotone(fields, j, i); }
  }

  lemma {:induction false} RequiredAt(fields: seq<Field>, k: nat, n: nat) returns (i: nat)
    requires n <= |fields| && k < RequiredBefore(fields, n)
    ensures i < n && fields[i].rule.Required? && RequiredBefore(fields, i) == k
    decreases n
  {
    if fields[n - 1].rule.Required? && RequiredBefore(fields, n - 1) == k { i := n - 1; }
    else { i := RequiredAt(fields, k, n - 1); }
  }

  /** Meeting every tracked required index is meeting every required field whose index is tracked. */
  lemma TrackedMeansSeen(fields: seq<Field>, seen: set<nat>)
    ensures var total := RequiredBefore(fields, |fields|);
            AllMet(TrackedIndices(fields, seen), if total > MAX_REQUIRED then MAX_REQUIRED else total) <==>
            forall i | 0 <= i < |fields| && fields[i].rule.Required? && RequiredBefore(fields, i) < MAX_REQUIRED ::
                i in seen
  {
    var total := RequiredBefore(fields, |fields|);
    var n := if total > MAX_REQUIRED then MAX_REQUIRED else total;
    var met := TrackedIndices(fields, seen);
    if AllMet(met, n) {
      forall i | 0 <= i < |fields| && fields[i].rule.Required? && RequiredBefore(fields, i) < MAX_REQUIRED
        ensures i in seen
      {
        RequiredMonotone(fields, i, |fields|);
        assert RequiredBefore(fields, i) in met;
        var j :| j in seen && j < |fields| && fields[j].rule.Required? &&
            RequiredBefore(fields, j) == RequiredBefore(fields, i);
        RequiredDistinct(fields, i, j);
      }
    }
    if forall i | 0 <= i < |fields| && fields[i].rule.Required? && RequiredBefore(fields, i) < MAX_REQUIRED ::
        i in seen {
      forall k: nat | k < n ensures k in met {
        var i := RequiredAt(fields, k, |fields|);
      }
    }
  }

  lemma TrackedBelowTotal(fields: seq<Field>, seen: set<nat>)
    ensures forall k | k in TrackedIndices(fields, seen) :: k < RequiredBefore(fields, |fields|)
  {
    forall k | k in TrackedIndices(fields, seen) ensures k < RequiredBefore(fields, |fields|) {
      var i :| i in seen && i < |fields| && fields[i].rule.Required? && RequiredBefore(fields, i) == k;
      RequiredMonotone(fields, i, |fields|);
    }
  }

  lemma TrackOne(fields: seq<Field>, seen: set<nat>, i: nat)
    requires i < |fields| && fields[i].rule.Required?
    ensures TrackedIndices(fields, seen + {i}) ==
            if RequiredBefore(fields, i) < MAX_REQUIRED then TrackedIndices(fields, seen) + {RequiredBefore(fields, i)}
            else TrackedIndices(fields, seen)
  {}
}
