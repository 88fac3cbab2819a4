/**
  * The JavaScript string and array built-ins the task relies on, with the
  * semantics they have in JavaScript: `String.prototype.split` with a
  * one-character separator, `Array.prototype.slice` with negative indices,
  * `startsWith`/`endsWith`, and the decimal rendering of a non-negative
  * integer inside a template literal.
  */
module JsStrings {

  /** Number of occurrences of `c` in `s`. */
  function Count(s: string, c: char): (n: nat)
    ensures n <= |s|
    ensures n == 0 <==> c !in s
  {
    if s == [] then 0
    else
      assert c in s <==> s[0] == c || c in s[1..];
      (if s[0] == c then 1 else 0) + Count(s[1..], c)
  }

  /**
    * `s.split(sep)` for a one-character separator: every occurrence of `sep`
    * cuts `s`, so the empty string gives `[""]` and a separator at either end
    * gives an empty first or last part.
    */
  function Split(s: string, sep: char): (parts: seq<string>)
    ensures |parts| == Count(s, sep) + 1
    ensures forall i :: 0 <= i < |parts| ==> sep !in parts[i]
  {
    if s == [] then [""]
    else
      var rest := Split(s[1..], sep);
      if s[0] == sep then [""] + rest
      else [[s[0]] + rest[0]] + rest[1..]
  }

  /** `parts.join(sep)`: the parts with one `sep` between neighbours. */
  function Join(parts: seq<string>, sep: char): string
  {
    if parts == [] then ""
    else if |parts| == 1 then parts[0]
    else parts[0] + [sep] + Join(parts[1..], sep)
  }

  /** Gluing a character onto the first part puts it in front of the join. */
  lemma JoinGlueFirst(c: char, parts: seq<string>, sep: char)
    requires |parts| >= 1
    ensures Join([[c] + parts[0]] + parts[1..], sep) == [c] + Join(parts, sep)
  {
    var glued := [[c] + parts[0]] + parts[1..];
    if |parts| > 1 {
      assert glued[1..] == parts[1..];
      assert ([c] + parts[0]) + [sep] + Join(parts[1..], sep) == [c] + (parts[0] + [sep] + Join(parts[1..], sep));
    }
  }

  /** Joining the parts of a split gives back the original string. */
  lemma {:induction false} JoinSplit(s: string, sep: char)
    ensures Join(Split(s, sep), sep) == s
  {
    if s != [] {
      var rest := Split(s[1..], sep);
      JoinSplit(s[1..], sep);
      if s[0] == sep {
        assert Split(s, sep) == [""] + rest;
        assert ([""] + rest)[1..] == rest;
      } else {
        assert Split(s, sep) == [[s[0]] + rest[0]] + rest[1..];
        JoinGlueFirst(s[0], rest, sep);
      }
      assert [s[0]] + s[1..] == s;
    }
  }

  /** A first character other than the separator is glued onto the first part of what follows. */
  lemma SplitCons(c: char, t: string, sep: char)
    requires c != sep
    ensures Split([c] + t, sep) == [[c] + Split(t, sep)[0]] + Split(t, sep)[1..]
  {
    assert ([c] + t)[1..] == t;
  }

  /** A separator-free prefix `a` is glued onto the first part of what follows. */
  lemma {:induction false} SplitPrefix(a: string, t: string, sep: char)
    requires sep !in a
    ensures Split(a + t, sep) == [a + Split(t, sep)[0]] + Split(t, sep)[1..]
  {
    var parts := Split(t, sep);
    if a == [] {
      assert a + t == t && a + parts[0] == parts[0];
      assert [parts[0]] + parts[1..] == parts;
    } else {
      calc {
        Split(a + t, sep);
        { assert a + t == [a[0]] + (a[1..] + t); }
        Split([a[0]] + (a[1..] + t), sep);
        { SplitCons(a[0], a[1..] + t, sep); }
        [[a[0]] + Split(a[1..] + t, sep)[0]] + Split(a[1..] + t, sep)[1..];
        { SplitPrefix(a[1..], t, sep); }
        [[a[0]] + (a[1..] + parts[0])] + parts[1..];
        { assert [a[0]] + (a[1..] + parts[0]) == a + parts[0]; }
        [a + parts[0]] + parts[1..];
      }
    }
  }

  /** A leading separator splits off an empty first part. */
  lemma SplitLeadingSep(t: string, sep: char)
    ensures Split([sep] + t, sep) == [""] + Split(t, sep)
  {
    assert ([sep] + t)[1..] == t;
  }

  /** `Join` of two or more parts: the first part, a separator, the join of the rest. */
  lemma JoinCons(head: string, rest: seq<string>, sep: char)
    requires |rest| >= 1
    ensures Join([head] + rest, sep) == head + ([sep] + Join(rest, sep))
  {
    assert ([head] + rest)[1..] == rest;
  }

  /** One step of `SplitJoin`: a separator-free part put in front of a join that splits back. */
  lemma SplitJoinCons(head: string, rest: seq<string>, sep: char)
    requires sep !in head && |rest| >= 1
    requires Split(Join(rest, sep), sep) == rest
    ensures Split(Join([head] + rest, sep), sep) == [head] + rest
  {
    var after := [sep] + Join(rest, sep);
    JoinCons(head, rest, sep);
    SplitPrefix(head, after, sep);
    SplitLeadingSep(Join(rest, sep), sep);
    assert head + "" == head;
  }

  /** One step of `SplitAppendSep`: putting a character in front keeps the trailing empty part. */
  lemma SplitAppendSepCons(c: char, u: string, sep: char)
    requires Split(u + [sep], sep) == Split(u, sep) + [""]
    ensures Split([c] + (u + [sep]), sep) == Split([c] + u, sep) + [""]
  {
    var rest := Split(u, sep);
    if c == sep {
      calc {
        Split([c] + (u + [sep]), sep);
        { SplitLeadingSep(u + [sep], sep); }
        [""] + (rest + [""]);
        ([""] + rest) + [""];
        { SplitLeadingSep(u, sep); }
        Split([c] + u, sep) + [""];
      }
    } else {
      calc {
        Split([c] + (u + [sep]), sep);
        { SplitCons(c, u + [sep], sep); }
        [[c] + (rest + [""])[0]] + (rest + [""])[1..];
        { assert (rest + [""])[0] == rest[0]; assert (rest + [""])[1..] == rest[1..] + [""]; }
        [[c] + rest[0]] + (rest[1..] + [""]);
        ([[c] + rest[0]] + rest[1..]) + [""];
        { SplitCons(c, u, sep); }
        Split([c] + u, sep) + [""];
      }
    }
  }

  /** A separator at the end adds an empty last part and changes nothing before it. */
  lemma {:induction false} SplitAppendSep(t: string, sep: char)
    ensures Split(t + [sep], sep) == Split(t, sep) + [""]
  {
    if t == [] {
      calc {
        Split(t + [sep], sep);
        { assert t + [sep] == [sep] + ""; }
        Split([sep] + "", sep);
        { SplitLeadingSep("", sep); }
        Split(t, sep) + [""];
      }
    } else {
      calc {
        Split(t + [sep], sep);
        { assert t + [sep] == [t[0]] + (t[1..] + [sep]); }
        Split([t[0]] + (t[1..] + [sep]), sep);
        { SplitAppendSep(t[1..], sep); SplitAppendSepCons(t[0], t[1..], sep); }
        Split([t[0]] + t[1..], sep) + [""];
        { assert [t[0]] + t[1..] == t; }
        Split(t, sep) + [""];
      }
    }
  }

  /** Splitting a join of separator-free parts gives back the parts. */
  lemma {:induction false} SplitJoin(parts: seq<string>, sep: char)
    requires |parts| >= 1
    requires forall i :: 0 <= i < |parts| ==> sep !in parts[i]
    ensures Split(Join(parts, sep), sep) == parts
  {
    if |parts| == 1 {
      SplitPrefix(parts[0], "", sep);
      assert parts[0] + "" == parts[0];
    } else {
      SplitJoin(parts[1..], sep);
      SplitJoinCons(parts[0], parts[1..], sep);
      assert [parts[0]] + parts[1..] == parts;
    }
  }

  /** Two strings with the same prefix and suffix around them are equal when the wholes are. */
  lemma MiddleEqual(p: string, x: string, y: string, t: string)
    requires p + x + t == p + y + t
    ensures x == y
  {
    assert |x| == |y|;
    assert x == (p + x + t)[|p|..|p| + |x|];
    assert y == (p + y + t)[|p|..|p| + |y|];
  }

  predicate StartsWith(s: string, prefix: string)
  {
    |prefix| <= |s| && s[..|prefix|] == prefix
  }

  predicate EndsWith(s: string, suffix: string)
  {
    |suffix| <= |s| && s[|s| - |suffix|..] == suffix
  }

  /**
    * The index `Array.prototype.slice` uses for an argument `k` on an array
    * of length `len`: negative arguments count from the end, and the result
    * is clamped to `0..len`.
    */
  function RelativeIndex(k: int, len: nat): (r: nat)
    ensures r <= len
    ensures 0 <= k <= len ==> r == k
    ensures -(len as int) <= k < 0 ==> r as int == len as int + k
    ensures k > len ==> r == len
    ensures k < -(len as int) ==> r == 0
  {
    if k < 0 then (if len + k < 0 then 0 else len + k)
    else if k > len then len
    else k
  }

  /** `xs.slice(start, end)`. */
  function Slice<T>(xs: seq<T>, start: int, end: int): seq<T>
  {
    var from, to := RelativeIndex(start, |xs|), RelativeIndex(end, |xs|);
    if from < to then xs[from..to] else []
  }

  /** `xs.slice(1, -1)` drops the first and the last element and nothing else. */
  lemma SliceDropsFirstAndLast<T>(xs: seq<T>)
    ensures |Slice(xs, 1, -1)| == if |xs| >= 2 then |xs| - 2 else 0
    ensures forall i :: 0 <= i < |Slice(xs, 1, -1)| ==> Slice(xs, 1, -1)[i] == xs[i + 1]
  {
  }

  function DigitChar(d: nat): char
    requires d < 10
  {
    (d + '0' as int) as char
  }

  predicate IsDigit(c: char)
  {
    '0' <= c <= '9'
  }

  /** The decimal rendering of `n`, as `${n}` produces it. */
  function NatToString(n: nat): (s: string)
    ensures |s| >= 1
    ensures forall i :: 0 <= i < |s| ==> IsDigit(s[i])
    ensures s[0] == '0' <==> n == 0
    ensures n == 0 ==> s == "0"
  {
    if n < 10 then [DigitChar(n)] else NatToString(n / 10) + [DigitChar(n % 10)]
  }

  /** The number a string of decimal digits denotes. */
  function DecimalValue(s: string): nat
    requires forall i :: 0 <= i < |s| ==> IsDigit(s[i])
  {
    if s == [] then 0
    else DecimalValue(s[..|s| - 1]) * 10 + DigitValue(s[|s| - 1])
  }

  function DigitValue(c: char): nat
    requires IsDigit(c)
  {
    c as int - '0' as int
  }

  /** Reading back the decimal rendering of `n` gives `n`. */
  lemma {:induction false} DecimalRoundTrip(n: nat)
    ensures DecimalValue(NatToString(n)) == n
  {
    var s := NatToString(n);
    if n < 10 {
      assert s[..|s| - 1] == [];
    } else {
      assert s[..|s| - 1] == NatToString(n / 10);
      DecimalRoundTrip(n / 10);
    }
  }

  /** Different numbers have different decimal renderings. */
  lemma NatToStringInjective(m: nat, n: nat)
    requires NatToString(m) == NatToString(n)
    ensures m == n
  {
    DecimalRoundTrip(m);
    DecimalRoundTrip(n);
  }
}
