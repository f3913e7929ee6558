/** Strings and the few JavaScript string operations the input handler relies on:
    splitting at a separator (String.prototype.split), deleting every comma
    (String.prototype.replace with /,/g) and the ASCII digit class [0-9]. */
module Text {

  datatype Option<+T> = None | Some(value: T)

  /** The regular-expression class [0-9]. */
  predicate IsDigit(c: char) {
    '0' <= c <= '9'
  }

  predicate IsDigits(s: string) {
    forall i :: 0 <= i < |s| ==> IsDigit(s[i])
  }

  /** How many times c occurs in s. */
  function Occurrences(s: string, c: char): nat
  {
    if s == [] then 0 else (if s[0] == c then 1 else 0) + Occurrences(s[1..], c)
  }

  /** c occurs in s exactly when it is counted at least once. */
  lemma {:induction false} OccurrencesPositive(s: string, c: char)
    ensures c in s <==> Occurrences(s, c) > 0
  {
    if s != [] {
      OccurrencesPositive(s[1..], c);
      assert s == [s[0]] + s[1..];
    }
  }

  /** Glues the pieces back together with sep between consecutive pieces
      (Array.prototype.join); the inverse of Split. */
  function Join(parts: seq<string>, sep: char): string
  {
    if |parts| == 0 then []
    else if |parts| == 1 then parts[0]
    else parts[0] + [sep] + Join(parts[1..], sep)
  }

  /** s.split(sep) for a one-character separator: the maximal pieces of s
      that do not contain sep, one more piece than there are separators. */
  function Split(s: string, sep: char): (parts: seq<string>)
    ensures |parts| == Occurrences(s, sep) + 1
    ensures forall i :: 0 <= i < |parts| ==> sep !in parts[i]
  {
    if s == [] then [[]]
    else
      var rest := Split(s[1..], sep);
      assert s == [s[0]] + s[1..];
      if s[0] == sep then [[]] + rest
      else [[s[0]] + rest[0]] + rest[1..]
  }

  /** Every character of a piece comes from s. */
  lemma {:induction false} SplitFrom(s: string, sep: char, k: nat, c: char)
    requires k < |Split(s, sep)| && c in Split(s, sep)[k]
    ensures c in s
  {
    if s != [] {
      var rest := Split(s[1..], sep);
      SplitStep(s, sep);
      if s[0] == sep {
        assert k > 0;
        SplitFrom(s[1..], sep, k - 1, c);
      } else if k == 0 {
        if c != s[0] {
          assert c in rest[0];
          SplitFrom(s[1..], sep, 0, c);
        }
      } else {
        SplitFrom(s[1..], sep, k, c);
      }
    }
  }

  /** Joining the pieces of s with the separator gives s back. */
  lemma {:induction false} JoinSplit(s: string, sep: char)
    ensures Join(Split(s, sep), sep) == s
  {
    if s != [] {
      var rest := Split(s[1..], sep);
      JoinSplit(s[1..], sep);
      SplitStep(s, sep);
      if s[0] == sep {
        JoinCons([], rest, sep);
      } else {
        JoinExtendHead(s[0], rest, sep);
      }
      assert [s[0]] + s[1..] == s;
    }
  }

  lemma SplitStep(s: string, sep: char)
    requires s != []
    ensures Split(s, sep) == if s[0] == sep then [[]] + Split(s[1..], sep)
                             else [[s[0]] + Split(s[1..], sep)[0]] + Split(s[1..], sep)[1..]
  {
  }

  lemma JoinCons(head: string, rest: seq<string>, sep: char)
    requires |rest| > 0
    ensures Join([head] + rest, sep) == head + [sep] + Join(rest, sep)
  {
    assert ([head] + rest)[1..] == rest;
  }

  lemma JoinExtendHead(c: char, parts: seq<string>, sep: char)
    requires |parts| > 0
    ensures Join([[c] + parts[0]] + parts[1..], sep) == [c] + Join(parts, sep)
  {
    var q := [[c] + parts[0]] + parts[1..];
    if |parts| > 1 {
      assert q[1..] == parts[1..];
      assert Join(q, sep) == ([c] + parts[0]) + [sep] + Join(parts[1..], sep);
    }
  }

  /** A piece list without the separator inside any piece splits back to itself. */
  lemma {:induction false} SplitJoin(parts: seq<string>, sep: char)
    requires |parts| > 0
    requires forall i :: 0 <= i < |parts| ==> sep !in parts[i]
    ensures Split(Join(parts, sep), sep) == parts
  {
    if |parts| == 1 {
      SplitWithoutSeparator(parts[0], sep);
    } else {
      SplitJoin(parts[1..], sep);
      SplitAfterPiece(parts[0], Join(parts[1..], sep), sep);
      assert [parts[0]] + parts[1..] == parts;
    }
  }

  lemma {:induction false} SplitWithoutSeparator(s: string, sep: char)
    requires sep !in s
    ensures Split(s, sep) == [s]
  {
    if s != [] {
      SplitWithoutSeparator(s[1..], sep);
      assert [s[0]] + s[1..] == s;
    }
  }

  lemma {:induction false} SplitAfterPiece(a: string, b: string, sep: char)
    requires sep !in a
    ensures Split(a + [sep] + b, sep) == [a] + Split(b, sep)
  {
    var s := a + [sep] + b;
    if a == [] {
      assert s == [sep] + b;
      assert s[1..] == b;
      SplitStep(s, sep);
    } else {
      var t := a[1..] + [sep] + b;
      assert s[0] == a[0] && s[1..] == t by {
        assert s == [a[0]] + t;
      }
      SplitAfterPiece(a[1..], b, sep);
      SplitStep(s, sep);
      assert [a[0]] + a[1..] == a;
    }
  }

  /** s.replace(/,/g, ''): every comma deleted, every other character kept
      in order. */
  function StripCommas(s: string): (r: string)
    ensures ',' !in r
    ensures |r| == |s| - Occurrences(s, ',')
  {
    if s == [] then []
    else
      assert s == [s[0]] + s[1..];
      (if s[0] == ',' then [] else [s[0]]) + StripCommas(s[1..])
  }

  /** Removing the commas keeps every other character, as often as it occurs. */
  lemma {:induction false} StripCommasKeeps(s: string, c: char)
    requires c != ','
    ensures Occurrences(StripCommas(s), c) == Occurrences(s, c)
  {
    if s != [] {
      StripCommasKeeps(s[1..], c);
      var r := StripCommas(s);
      if s[0] == ',' {
        assert r == StripCommas(s[1..]);
      } else {
        assert r[0] == s[0] && r[1..] == StripCommas(s[1..]);
      }
    }
  }

  /** Every character left after removing the commas was in the input. */
  lemma {:induction false} StripCommasFrom(s: string)
    ensures forall i :: 0 <= i < |StripCommas(s)| ==> StripCommas(s)[i] in s
  {
    if s != [] {
      StripCommasFrom(s[1..]);
      assert s == [s[0]] + s[1..];
    }
  }

  lemma {:induction false} StripCommasAppend(a: string, b: string)
    ensures StripCommas(a + b) == StripCommas(a) + StripCommas(b)
  {
    if a != [] {
      assert (a + b)[1..] == a[1..] + b;
      StripCommasAppend(a[1..], b);
    } else {
      assert a + b == b;
    }
  }

  lemma {:induction false} StripCommasWithoutCommas(s: string)
    requires ',' !in s
    ensures StripCommas(s) == s
  {
    if s != [] {
      StripCommasWithoutCommas(s[1..]);
    }
  }

  /** A string made of commas only loses all of them. */
  lemma {:induction false} StripCommasOnlyCommas(s: string)
    requires forall i :: 0 <= i < |s| ==> s[i] == ','
    ensures StripCommas(s) == []
  {
    if s != [] {
      StripCommasOnlyCommas(s[1..]);
    }
  }
}
