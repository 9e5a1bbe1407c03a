/** Splitting text or bytes at a separator and putting the parts together again. */
module Text {
  import opened Sequences

  /** The parts of `s` between separators; the last one is what follows the last separator, possibly empty. */
  function Split<T(==)>(s: seq<T>, sep: T): (r: seq<seq<T>>)
    ensures r != []
  {
    if s == [] then [[]]
    else
      var rest := Split(s[1..], sep);
      if s[0] == sep then [[]] + rest else [[s[0]] + rest[0]] + rest[1..]
  }

  /** Puts separators back between the parts. */
  function Join<T>(parts: seq<seq<T>>, sep: T): seq<T>
    requires parts != []
  {
    if |parts| == 1 then parts[0] else parts[0] + [sep] + Join(parts[1..], sep)
  }

  lemma {:induction false} SplitJoin<T>(s: seq<T>, sep: T)
    ensures Join(Split(s, sep), sep) == s
  {
    if s != [] {
      SplitJoin(s[1..], sep);
      var rest := Split(s[1..], sep);
      if s[0] != sep && |rest| > 1 {
        assert Split(s, sep)[1..] == rest[1..];
        Assoc([s[0]], rest[0], [sep]);
        Assoc([s[0]], rest[0] + [sep], Join(rest[1..], sep));
      }
    }
  }

  ghost predicate Within<T>(part: seq<T>, s: seq<T>) {
    forall c <- part :: c in s
  }

  /** No part holds the separator, and no part holds anything that is not in `s`. */
  lemma {:induction false} SplitParts<T>(s: seq<T>, sep: T)
    ensures forall part <- Split(s, sep) :: sep !in part && Within(part, s)
  {
    if s != [] {
      var rest := Split(s[1..], sep);
      SplitParts(s[1..], sep);
      assert forall c <- s[1..] :: c in s;
      forall part | part in Split(s, sep)
        ensures sep !in part && Within(part, s)
      {
        if part in rest {
          assert Within(part, s[1..]);
        } else if s[0] != sep {
          assert part == [s[0]] + rest[0] && rest[0] in rest && Within(rest[0], s[1..]);
        }
      }
    }
  }

  /** Without the separator there is one part, and with it there are several. */
  lemma {:induction false} SplitWhole<T>(s: seq<T>, sep: T)
    ensures sep !in s ==> Split(s, sep) == [s]
    ensures sep in s ==> |Split(s, sep)| > 1
  {
    if s != [] {
      SplitWhole(s[1..], sep);
      assert s == [s[0]] + s[1..];
    }
  }

  lemma {:induction false} SplitAppend<T>(a: seq<T>, sep: T, b: seq<T>)
    ensures Split(a + [sep] + b, sep) == Split(a, sep) + Split(b, sep)
  {
    var whole := a + [sep] + b;
    if a == [] {
      assert whole[1..] == b;
    } else {
      SplitAppend(a[1..], sep, b);
      assert whole[0] == a[0] && whole[1..] == a[1..] + [sep] + b;
      PrependAppend(a[0], sep, Split(a[1..], sep), Split(b, sep));
    }
  }

  lemma PrependAppend<T>(c: T, sep: T, parts: seq<seq<T>>, more: seq<seq<T>>)
    requires parts != []
    ensures if c == sep then [[]] + (parts + more) == ([[]] + parts) + more
            else [[c] + (parts + more)[0]] + (parts + more)[1..] == ([[c] + parts[0]] + parts[1..]) + more
  {
    assert (parts + more)[1..] == parts[1..] + more;
  }

  /** The first part ends at the first separator. */
  lemma SplitFirst<T>(a: seq<T>, sep: T, b: seq<T>)
    requires sep !in a
    ensures Split(a + [sep] + b, sep) == [a] + Split(b, sep)
  {
    SplitWhole(a, sep);
    SplitAppend(a, sep, b);
  }

  /** The splitting is the only one: any parts without the separator that join to `s` are its parts. */
  lemma {:induction false} SplitUnique<T>(parts: seq<seq<T>>, sep: T)
    requires parts != [] && forall p <- parts :: sep !in p
    ensures Split(Join(parts, sep), sep) == parts
  {
    SplitWhole(parts[0], sep);
    if |parts| > 1 {
      SplitUnique(parts[1..], sep);
      SplitFirst(parts[0], sep, Join(parts[1..], sep));
    }
  }
}
