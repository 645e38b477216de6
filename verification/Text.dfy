/** Character strings and the order Python's `<` puts on them. */
module Text {

  datatype Option<+T> = None | Some(value: T)

  /** Lexicographic order by code point: a proper prefix is smaller. */
  predicate Less(a: string, b: string)
  {
    if |b| == 0 then false
    else if |a| == 0 then true
    else if a[0] != b[0] then a[0] < b[0]
    else Less(a[1..], b[1..])
  }

  /** Exactly one of `a < b`, `a == b`, `b < a` holds. */
  lemma {:induction false} LessIsTrichotomous(a: string, b: string)
    ensures Less(a, b) ==> a != b && !Less(b, a)
    ensures a != b ==> Less(a, b) || Less(b, a)
  {
    if |a| > 0 && |b| > 0 && a[0] == b[0] {
      LessIsTrichotomous(a[1..], b[1..]);
      assert a == [a[0]] + a[1..] && b == [b[0]] + b[1..];
    }
  }

  lemma {:induction false} LessIsTransitive(a: string, b: string, c: string)
    requires Less(a, b) && Less(b, c)
    ensures Less(a, c)
  {
    if |a| > 0 && a[0] == b[0] == c[0] {
      LessIsTransitive(a[1..], b[1..], c[1..]);
    }
  }

  /** `a` and `b` agree up to place `n`, where `a` ends or has the smaller character. */
  predicate DepartsAt(a: string, b: string, n: nat)
  {
    n <= |a| && n < |b| && a[..n] == b[..n] && (n == |a| || a[n] < b[n])
  }

  /** `a` comes before `b` in code-point order. */
  ghost predicate Precedes(a: string, b: string)
  {
    exists n: nat :: DepartsAt(a, b, n)
  }

  lemma {:induction false} LessIsCodePointOrder(a: string, b: string)
    ensures Less(a, b) <==> Precedes(a, b)
  {
    if |a| > 0 && |b| > 0 && a[0] == b[0] {
      LessIsCodePointOrder(a[1..], b[1..]);
      forall n: nat ensures DepartsAt(a[1..], b[1..], n) <==> DepartsAt(a, b, n + 1) {
        DepartsLater(a, b, n);
      }
      if n: nat :| DepartsAt(a, b, n) {
        DepartsLater(a, b, n - 1);
        assert DepartsAt(a[1..], b[1..], n - 1);
      }
    } else if Less(a, b) {
      assert DepartsAt(a, b, 0);
    } else if n: nat :| DepartsAt(a, b, n) {
      if n > 0 {
        HeadsAgree(a, b, n);
      }
    }
  }

  lemma HeadsAgree(a: string, b: string, n: nat)
    requires DepartsAt(a, b, n) && n > 0
    ensures a[0] == b[0]
  {
    assert a[..n][0] == a[0] && b[..n][0] == b[0];
  }

  lemma DepartsLater(a: string, b: string, n: nat)
    requires |a| > 0 && |b| > 0 && a[0] == b[0]
    ensures DepartsAt(a[1..], b[1..], n) <==> DepartsAt(a, b, n + 1)
  {
    if n < |a| && n < |b| {
      assert a[..n + 1] == [a[0]] + a[1..][..n] && b[..n + 1] == [b[0]] + b[1..][..n];
      assert a[1..][..n] == a[..n + 1][1..] && b[1..][..n] == b[..n + 1][1..];
    }
  }
}
