/**
 * Where a frame sits in the decoder's input: the bytes from a position on
 * hold all of a frame, or only a proper prefix of it because the input
 * ends first.
 */
module Input {
  import opened Wire

  /** From pos on, data holds all of f. */
  predicate At(data: seq<byte>, pos: nat, f: seq<byte>) {
    pos + |f| <= |data| && MatchesFrom(data, pos, f, 0)
  }

  /** The bytes of f from index k on are those of data from pos + k on, as far as both go. */
  predicate MatchesFrom(data: seq<byte>, pos: nat, f: seq<byte>, k: nat)
    decreases |f| - k
  {
    k >= |f| || (pos + k < |data| && data[pos + k] == f[k] && MatchesFrom(data, pos, f, k + 1))
  }

  lemma {:induction false} MatchesFromSlice(data: seq<byte>, pos: nat, f: seq<byte>, k: nat)
    requires pos + |f| <= |data| && k <= |f|
    ensures MatchesFrom(data, pos, f, k) <==> data[pos + k..pos + |f|] == f[k..]
    decreases |f| - k
  {
    if k < |f| {
      MatchesFromSlice(data, pos, f, k + 1);
      assert data[pos + k..pos + |f|] == [data[pos + k]] + data[pos + k + 1..pos + |f|];
      assert f[k..] == [f[k]] + f[k + 1..];
    }
  }

  lemma MatchesSlice(data: seq<byte>, pos: nat, f: seq<byte>)
    requires pos + |f| <= |data|
    ensures MatchesFrom(data, pos, f, 0) <==> data[pos..pos + |f|] == f
  {
    MatchesFromSlice(data, pos, f, 0);
    assert f[0..] == f;
  }

  /** The bytes at pos are f, as a slice. */
  lemma AtSlice(data: seq<byte>, pos: nat, f: seq<byte>)
    requires At(data, pos, f)
    ensures data[pos..pos + |f|] == f
  {
    MatchesSlice(data, pos, f);
  }

  lemma AtSplit(data: seq<byte>, pos: nat, a: seq<byte>, b: seq<byte>)
    requires At(data, pos, a + b)
    ensures At(data, pos, a) && At(data, pos + |a|, b)
  {
    MatchesSlice(data, pos, a + b);
    MatchesSlice(data, pos, a);
    MatchesSlice(data, pos + |a|, b);
    assert data[pos..pos + |a|] == (a + b)[..|a|];
    assert data[pos + |a|..pos + |a| + |b|] == (a + b)[|a|..];
  }

  /** From pos on, data holds a proper prefix of f: the input ends inside f. */
  predicate Truncated(data: seq<byte>, pos: nat, f: seq<byte>) {
    pos <= |data| < pos + |f| && data[pos..] == f[..|data| - pos]
  }

  lemma TruncSplit(data: seq<byte>, pos: nat, a: seq<byte>, b: seq<byte>)
    requires Truncated(data, pos, a + b)
    ensures pos + |a| <= |data| ==> At(data, pos, a) && Truncated(data, pos + |a|, b)
    ensures |data| < pos + |a| ==> Truncated(data, pos, a)
  {
    var k := |data| - pos;
    if |a| <= k {
      MatchesSlice(data, pos, a);
      assert data[pos..pos + |a|] == data[pos..][..|a|] == (a + b)[..|a|];
      assert data[pos + |a|..] == data[pos..][|a|..] == (a + b)[|a|..k];
    } else {
      assert (a + b)[..k] == a[..k];
    }
  }}
