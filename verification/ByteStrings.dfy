/** Bytes, byte strings and their lexicographic order.

    A Go string is a sequence of bytes and `strings.Compare` is bytewise, so
    every label, package, name and hash text of the model is a `Text`. */
module ByteStrings {

  type byte = x: int | 0 <= x < 256

  type Text = seq<byte>

  /** The bytes of an ASCII literal of the source. */
  function Ascii(s: string): (t: Text)
    ensures |t| == |s|
  {
    seq(|s|, i requires 0 <= i < |s| => (s[i] as int) % 256)
  }

  lemma AsciiIsBytewise(s: string, i: nat)
    requires i < |s| && s[i] as int < 128
    ensures Ascii(s)[i] == s[i] as int
  {
  }

  function Zeros(n: nat): (zeros: seq<byte>)
    ensures |zeros| == n && forall x | x in zeros :: x == 0
  {
    seq(n, i => 0)
  }

  /** `strings.Compare(a, b) < 0`. */
  predicate Less(a: Text, b: Text)
    decreases |b|
  {
    b != [] && (a == [] || a[0] < b[0] || (a[0] == b[0] && Less(a[1..], b[1..])))
  }

  predicate LessEq(a: Text, b: Text) {
    a == b || Less(a, b)
  }

  lemma {:induction false} LessIrreflexive(a: Text)
    ensures !Less(a, a)
  {
    if a != [] {
      LessIrreflexive(a[1..]);
    }
  }

  /** The first byte that differs decides; a proper prefix comes first. */
  lemma {:induction false} LessIsLexicographic(a: Text, b: Text)
    ensures Less(a, b) <==>
            exists k: nat :: k <= |a| && k < |b| && a[..k] == b[..k] && (k == |a| || a[k] < b[k])
    decreases |a|
  {
    if a != [] && b != [] && a[0] == b[0] {
      var x, y := a[1..], b[1..];
      LessIsLexicographic(x, y);
      if k: nat :| k <= |x| && k < |y| && x[..k] == y[..k] && (k == |x| || x[k] < y[k]) {
        assert a[..k + 1] == [a[0]] + x[..k] && b[..k + 1] == [b[0]] + y[..k];
      }
      if k: nat :| k <= |a| && k < |b| && a[..k] == b[..k] && (k == |a| || a[k] < b[k]) {
        assert k > 0;
        assert a[1..][..k - 1] == a[..k][1..] && b[1..][..k - 1] == b[..k][1..];
      }
    } else if a != [] && b != [] {
      forall k: nat | 0 < k <= |a| && k < |b| ensures a[..k] != b[..k] {
        assert a[..k][0] == a[0] && b[..k][0] == b[0];
      }
      assert a[..0] == b[..0];
    } else {
      assert a[..0] == b[..0];
    }
  }

  lemma {:induction false} LessTransitive(a: Text, b: Text, c: Text)
    requires Less(a, b) && Less(b, c)
    ensures Less(a, c)
    decreases |a|
  {
    if a != [] && a[0] == b[0] == c[0] {
      LessTransitive(a[1..], b[1..], c[1..]);
    }
  }

  lemma {:induction false} LessTotal(a: Text, b: Text)
    ensures a == b || Less(a, b) || Less(b, a)
    decreases |a|
  {
    if a != [] && b != [] && a[0] == b[0] {
      LessTotal(a[1..], b[1..]);
      assert a == [a[0]] + a[1..] && b == [b[0]] + b[1..];
    }
  }

  lemma LessEqIsTotalOrder()
    ensures forall a, b :: LessEq(a, b) || LessEq(b, a)
    ensures forall a, b, c :: LessEq(a, b) && LessEq(b, c) ==> LessEq(a, c)
    ensures forall a, b :: LessEq(a, b) && LessEq(b, a) ==> a == b
  {
    forall a, b ensures LessEq(a, b) || LessEq(b, a) {
      LessTotal(a, b);
    }
    forall a, b, c | LessEq(a, b) && LessEq(b, c) ensures LessEq(a, c) {
      if a != b && b != c {
        LessTransitive(a, b, c);
      }
    }
    forall a, b | LessEq(a, b) && LessEq(b, a) ensures a == b {
      if a != b {
        LessTransitive(a, b, a);
        LessIrreflexive(a);
      }
    }
  }

  /** The (package, name) pair the encoder sorts nodes by. */
  datatype Key = Key(pkg: Text, name: Text)

  predicate KeyLess(a: Key, b: Key) {
    Less(a.pkg, b.pkg) || (a.pkg == b.pkg && Less(a.name, b.name))
  }

  lemma KeyLessIrreflexive(a: Key)
    ensures !KeyLess(a, a)
  {
    LessIrreflexive(a.pkg);
    LessIrreflexive(a.name);
  }

  lemma KeyLessTransitive(a: Key, b: Key, c: Key)
    requires KeyLess(a, b) && KeyLess(b, c)
    ensures KeyLess(a, c)
  {
    if Less(a.pkg, b.pkg) && Less(b.pkg, c.pkg) {
      LessTransitive(a.pkg, b.pkg, c.pkg);
    } else if a.pkg == b.pkg == c.pkg {
      LessTransitive(a.name, b.name, c.name);
    }
  }

  lemma KeyLessTotal(a: Key, b: Key)
    ensures a == b || KeyLess(a, b) || KeyLess(b, a)
  {
    LessTotal(a.pkg, b.pkg);
    LessTotal(a.name, b.name);
  }
}
