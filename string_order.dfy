/** The order in which JavaScript's default `Array.prototype.sort` puts strings: character by
    character, a proper prefix first. The history's date keys are sorted this way
    (index.js:52) and the last one is taken (index.js:58). */
module StringOrder {

  predicate Less(a: string, b: string)
    decreases |a|
  {
    |b| > 0 && (|a| == 0 || a[0] < b[0] || (a[0] == b[0] && Less(a[1..], b[1..])))
  }

  lemma {:induction false} LessIrreflexive(a: string)
    ensures !Less(a, a)
  {
    if |a| > 0 {
      LessIrreflexive(a[1..]);
    }
  }

  lemma {:induction false} LessAsymmetric(a: string, b: string)
    requires Less(a, b)
    ensures !Less(b, a)
  {
    if |a| > 0 && a[0] == b[0] {
      LessAsymmetric(a[1..], b[1..]);
    }
  }

  lemma LessAsymmetricAll()
    ensures forall a: string, b: string :: Less(a, b) ==> !Less(b, a)
  {
    forall a: string, b: string | Less(a, b)
      ensures !Less(b, a)
    {
      LessAsymmetric(a, b);
    }
  }

  lemma {:induction false} LessTransitive(a: string, b: string, c: string)
    requires Less(a, b) && Less(b, c)
    ensures Less(a, c)
  {
    if |a| > 0 && a[0] == b[0] && b[0] == c[0] {
      LessTransitive(a[1..], b[1..], c[1..]);
    }
  }

  lemma {:induction false} LessTotal(a: string, b: string)
    ensures a == b || Less(a, b) || Less(b, a)
  {
    if |a| > 0 && |b| > 0 && a[0] == b[0] {
      LessTotal(a[1..], b[1..]);
      if a[1..] == b[1..] {
        assert a == [a[0]] + a[1..] && b == [b[0]] + b[1..];
      }
    }
  }

  /** Comparing two strings that start with prefixes of one length compares the prefixes first. */
  lemma {:induction false} LessConcat(a: string, b: string, x: string, y: string)
    requires |a| == |b|
    ensures Less(a + x, b + y) <==> Less(a, b) || (a == b && Less(x, y))
  {
    if |a| == 0 {
      assert a + x == x && b + y == y;
    } else {
      assert (a + x)[0] == a[0] && (b + y)[0] == b[0];
      assert (a + x)[1..] == a[1..] + x && (b + y)[1..] == b[1..] + y;
      LessConcat(a[1..], b[1..], x, y);
      if a[0] == b[0] && a[1..] == b[1..] {
        assert a == [a[0]] + a[1..] && b == [b[0]] + b[1..];
      }
    }
  }

  lemma LessConcatLeft(a: string, b: string, x: string, y: string)
    requires |a| == |b| && Less(a, b)
    ensures Less(a + x, b + y)
  {
    LessConcat(a, b, x, y);
  }

  lemma LessConcatRight(a: string, x: string, y: string)
    requires Less(x, y)
    ensures Less(a + x, a + y)
  {
    LessConcat(a, a, x, y);
  }

  /** `k` is the last of `keys` once they are sorted. */
  predicate IsGreatest(k: string, keys: set<string>)
  {
    k in keys && forall j :: j in keys && j != k ==> Less(j, k)
  }

  lemma {:induction false} GreatestExists(keys: set<string>)
    requires keys != {}
    ensures exists k :: IsGreatest(k, keys)
    decreases |keys|
  {
    var x :| x in keys;
    if keys == {x} {
      assert IsGreatest(x, keys);
    } else {
      GreatestExists(keys - {x});
      var m :| IsGreatest(m, keys - {x});
      LessTotal(m, x);
      if Less(m, x) {
        forall j | j in keys && j != x
          ensures Less(j, x)
        {
          if j != m {
            LessTransitive(j, m, x);
          }
        }
        assert IsGreatest(x, keys);
      } else {
        assert IsGreatest(m, keys);
      }
    }
  }

  lemma GreatestUnique(k: string, g: string, keys: set<string>)
    requires IsGreatest(k, keys) && IsGreatest(g, keys)
    ensures k == g
  {
    if k != g {
      LessAsymmetric(g, k);
    }
  }

  /** `Object.keys(h).sort()` followed by `.slice(-1)[0]` (index.js:52, index.js:58). */
  function GreatestKey(keys: set<string>): (k: string)
    requires keys != {}
    ensures IsGreatest(k, keys)
  {
    GreatestExists(keys);
    LessAsymmetricAll();
    var k :| IsGreatest(k, keys); k
  }
}
