/** The lexicographic order on byte strings, which Rust uses for `String`, `[u8; N]` and the keys of a `BTreeMap`. */
module Order {
  import opened Prelude

  predicate Less(a: seq<byte>, b: seq<byte>) {
    b != [] && (a == [] || a[0] < b[0] || (a[0] == b[0] && Less(a[1..], b[1..])))
  }

  lemma {:induction false} Irreflexive(a: seq<byte>)
    ensures !Less(a, a)
  {
    if a != [] {
      Irreflexive(a[1..]);
    }
  }

  lemma {:induction false} Transitive(a: seq<byte>, b: seq<byte>, c: seq<byte>)
    requires Less(a, b) && Less(b, c)
    ensures Less(a, c)
  {
    if a != [] && a[0] == b[0] == c[0] {
      Transitive(a[1..], b[1..], c[1..]);
    }
  }

  lemma {:induction false} Trichotomy(a: seq<byte>, b: seq<byte>)
    ensures Less(a, b) || a == b || Less(b, a)
    ensures !(Less(a, b) && Less(b, a))
  {
    if a != [] && b != [] && a[0] == b[0] {
      Trichotomy(a[1..], b[1..]);
      assert a == [a[0]] + a[1..] && b == [b[0]] + b[1..];
    }
  }

  /** At the first place where they differ the lesser one has the lesser byte, or it ends there. */
  ghost predicate DiffersAt(a: seq<byte>, b: seq<byte>, k: nat) {
    k <= |a| && k < |b| && a[..k] == b[..k] && (k == |a| || a[k] < b[k])
  }

  lemma {:induction false} LessIffFirstDifference(a: seq<byte>, b: seq<byte>)
    ensures Less(a, b) <==> exists k: nat :: DiffersAt(a, b, k)
  {
    if a != [] && b != [] && a[0] == b[0] {
      LessIffFirstDifference(a[1..], b[1..]);
      forall k: nat | k < |b[1..]|
        ensures DiffersAt(a[1..], b[1..], k) <==> DiffersAt(a, b, k + 1)
      {
        DifferenceBelow(a, b, k);
      }
      if k: nat :| DiffersAt(a, b, k) {
        assert k > 0 && DiffersAt(a[1..], b[1..], k - 1);
      }
    } else {
      assert DiffersAt(a, b, 0) <==> b != [] && (a == [] || a[0] < b[0]);
      assert forall k: nat :: k > 0 && DiffersAt(a, b, k) ==> a[..k][0] == b[..k][0];
    }
  }

  lemma DifferenceBelow(a: seq<byte>, b: seq<byte>, k: nat)
    requires a != [] && b != [] && a[0] == b[0] && k < |b[1..]|
    ensures DiffersAt(a[1..], b[1..], k) <==> DiffersAt(a, b, k + 1)
  {
    if k <= |a[1..]| {
      assert a[..k + 1] == [a[0]] + a[1..][..k] && b[..k + 1] == [b[0]] + b[1..][..k];
      assert a[..k + 1][1..] == a[1..][..k] && b[..k + 1][1..] == b[1..][..k];
    }
  }

  /** Comparing concatenations with equally long heads compares the heads first. */
  lemma {:induction false} LessOfConcat(a: seq<byte>, b: seq<byte>, x: seq<byte>, y: seq<byte>)
    requires |a| == |b|
    ensures Less(a + x, b + y) <==> Less(a, b) || (a == b && Less(x, y))
  {
    if a == [] {
      assert a + x == x && b + y == y;
    } else {
      assert (a + x)[1..] == a[1..] + x && (b + y)[1..] == b[1..] + y;
      assert a == [a[0]] + a[1..] && b == [b[0]] + b[1..];
      LessOfConcat(a[1..], b[1..], x, y);
    }
  }

  predicate IsPrefix(p: seq<byte>, a: seq<byte>) {
    |p| <= |a| && a[..|p|] == p
  }

  /** Names with a given prefix come first among the names that are not below the prefix. */
  lemma {:induction false} PrefixedComeFirst(p: seq<byte>, a: seq<byte>, b: seq<byte>)
    requires IsPrefix(p, a)
    requires !Less(b, p) && !IsPrefix(p, b)
    ensures Less(a, b)
  {
    if p != [] {
      assert a[0] == p[0] && a[1..][..|p| - 1] == p[1..];
      if b != [] && b[0] == p[0] {
        assert p == [p[0]] + p[1..];
        PrefixedComeFirst(p[1..], a[1..], b[1..]);
      }
    }
  }

  /** A name with prefix `p` is not below `p`. */
  lemma {:induction false} PrefixedNotBelow(p: seq<byte>, a: seq<byte>)
    requires IsPrefix(p, a)
    ensures !Less(a, p)
  {
    if p != [] {
      assert a[0] == p[0] && a[1..][..|p| - 1] == p[1..];
      PrefixedNotBelow(p[1..], a[1..]);
    }
  }
}
