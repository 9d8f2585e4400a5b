/** Directory listings. The order in which the operating system lists a
    directory is unspecified; the model fixes one: names in lexicographic
    order of their characters. */
module Names {
  import opened Tree

  /** `a` comes no later than `b` in lexicographic order. */
  predicate NameLe(a: string, b: string)
    decreases |a|
  {
    |a| == 0 || (|b| > 0 && (a[0] < b[0] || (a[0] == b[0] && NameLe(a[1..], b[1..]))))
  }

  lemma {:induction false} NameLeTotal(a: string, b: string)
    ensures NameLe(a, b) || NameLe(b, a)
    decreases |a|
  {
    if |a| > 0 && |b| > 0 && a[0] == b[0] {
      NameLeTotal(a[1..], b[1..]);
    }
  }

  lemma {:induction false} NameLeAntisymmetric(a: string, b: string)
    requires NameLe(a, b) && NameLe(b, a)
    ensures a == b
    decreases |a|
  {
    if |a| > 0 {
      NameLeAntisymmetric(a[1..], b[1..]);
      assert a == [a[0]] + a[1..] && b == [b[0]] + b[1..];
    }
  }

  lemma {:induction false} NameLeTransitive(a: string, b: string, c: string)
    requires NameLe(a, b) && NameLe(b, c)
    ensures NameLe(a, c)
    decreases |a|
  {
    if |a| > 0 && a[0] == b[0] && b[0] == c[0] {
      NameLeTransitive(a[1..], b[1..], c[1..]);
    }
  }

  /** `m` is the first name of `s` in lexicographic order. */
  predicate IsFirst(m: string, s: set<string>) {
    m in s && forall x :: x in s ==> NameLe(m, x)
  }

  lemma {:induction false} FirstExists(s: set<string>)
    requires s != {}
    ensures exists m :: IsFirst(m, s)
    decreases |s|
  {
    var x :| x in s;
    if s != {x} {
      FirstExists(s - {x});
      var m :| IsFirst(m, s - {x});
      NameLeTotal(x, m);
      if NameLe(x, m) {
        forall y | y in s ensures NameLe(x, y) {
          if y != x { NameLeTransitive(x, m, y); } else { NameLeTotal(x, x); }
        }
        assert IsFirst(x, s);
      } else {
        assert NameLe(m, x);
        assert IsFirst(m, s);
      }
    } else {
      assert IsFirst(x, s) by { NameLeTotal(x, x); }
    }
  }

  lemma FirstUnique(s: set<string>)
    ensures forall m, m' :: IsFirst(m, s) && IsFirst(m', s) ==> m == m'
  {
    forall m, m' | IsFirst(m, s) && IsFirst(m', s) ensures m == m' {
      NameLeAntisymmetric(m, m');
    }
  }

  /** The listing of a directory whose entries are named `names`: every name
      exactly once. */
  function Listing(names: set<string>): (r: seq<string>)
    ensures Distinct(r)
    ensures forall n :: n in r <==> n in names
    decreases |names|
  {
    if names == {} then []
    else
      FirstExists(names);
      FirstUnique(names);
      var m :| IsFirst(m, names);
      [m] + Listing(names - {m})
  }
}
