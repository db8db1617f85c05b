/**
 * The numeric-aware sort key of the output lines: a line is split, after a leading NUL
 * character, into maximal runs of digits and of non-digits; digit runs compare as the
 * numbers they spell and the other runs as text, so that `10.2.0.0/24` sorts before
 * `10.10.0.0/24`.  Only the ASCII digits '0' to '9' count as digits.
 */
module SortKey {

  datatype Piece = Text(text: string) | Num(value: nat)

  predicate IsDigit(c: char)
  {
    '0' <= c <= '9'
  }

  /** Every character of `run` is of the same class, digit or not, as its first one. */
  predicate Uniform(run: string)
  {
    forall j :: 0 <= j < |run| ==> IsDigit(run[j]) == IsDigit(run[0])
  }

  function Concat(runs: seq<string>): string
  {
    if runs == [] then [] else runs[0] + Concat(runs[1..])
  }

  /** Puts a character in front of a list of runs: it joins the first run when of the same class. */
  function Prepend(c: char, rest: seq<string>): (runs: seq<string>)
    requires forall i :: 0 <= i < |rest| ==> rest[i] != []
    ensures runs != [] && (forall i :: 0 <= i < |runs| ==> runs[i] != []) && runs[0][0] == c
  {
    if rest != [] && IsDigit(c) == IsDigit(rest[0][0]) then [[c] + rest[0]] + rest[1..] else [[c]] + rest
  }

  /** The runs of `s` in order, `groupby(s, str.isdigit)`: non-empty, the first one starting `s`. */
  function Runs(s: string): (runs: seq<string>)
    ensures (runs == []) == (s == [])
    ensures forall i :: 0 <= i < |runs| ==> runs[i] != []
    ensures s != [] ==> runs[0][0] == s[0]
  {
    if s == [] then [] else Prepend(s[0], Runs(s[1..]))
  }

  /** Non-empty, uniform runs whose neighbours are of different classes. */
  predicate Maximal(runs: seq<string>)
  {
    && (forall i :: 0 <= i < |runs| ==> runs[i] != [] && Uniform(runs[i]))
    && (forall i :: 0 <= i < |runs| - 1 ==> IsDigit(runs[i][0]) != IsDigit(runs[i + 1][0]))
  }

  /**
   * The runs are maximal: each is uniform, neighbours are of different classes, and
   * together they spell `s`.
   */
  lemma {:induction false} RunsSpec(s: string)
    ensures Concat(Runs(s)) == s
    ensures forall i :: 0 <= i < |Runs(s)| ==> Uniform(Runs(s)[i])
    ensures forall i :: 0 <= i < |Runs(s)| - 1 ==> IsDigit(Runs(s)[i][0]) != IsDigit(Runs(s)[i + 1][0])
  {
    if s != [] {
      RunsSpec(s[1..]);
      var rest := Runs(s[1..]);
      if rest != [] && IsDigit(s[0]) == IsDigit(rest[0][0]) {
        PrependJoin(s[0], rest);
      } else {
        PrependNew(s[0], rest);
      }
      assert s == [s[0]] + s[1..];
    }
  }

  /** A character of the first run's class joins that run. */
  lemma PrependJoin(c: char, rest: seq<string>)
    requires rest != [] && Maximal(rest) && IsDigit(c) == IsDigit(rest[0][0])
    ensures Maximal(Prepend(c, rest)) && Concat(Prepend(c, rest)) == [c] + Concat(rest)
  {
    var first, runs := [c] + rest[0], Prepend(c, rest);
    assert runs == [first] + rest[1..];
    assert Uniform(first) by {
      forall j | 0 <= j < |first|
        ensures IsDigit(first[j]) == IsDigit(first[0])
      {
        if j > 0 {
          assert first[j] == rest[0][j - 1];
        }
      }
    }
    forall i | 0 <= i < |runs|
      ensures runs[i] != [] && Uniform(runs[i])
    {
      if i > 0 {
        assert runs[i] == rest[i];
      }
    }
    forall i | 0 <= i < |runs| - 1
      ensures IsDigit(runs[i][0]) != IsDigit(runs[i + 1][0])
    {
      assert runs[i + 1] == rest[i + 1];
      if i > 0 {
        assert runs[i] == rest[i];
      }
    }
    ConcatJoin(c, rest);
  }

  lemma ConcatJoin(c: char, rest: seq<string>)
    requires rest != []
    ensures Concat([[c] + rest[0]] + rest[1..]) == [c] + Concat(rest)
  {
    var runs := [[c] + rest[0]] + rest[1..];
    var tail := Concat(rest[1..]);
    assert runs[1..] == rest[1..];
    assert Concat(runs) == ([c] + rest[0]) + tail;
    assert Concat(rest) == rest[0] + tail;
    Assoc([c], rest[0], tail);
  }

  lemma Assoc<T>(x: seq<T>, y: seq<T>, z: seq<T>)
    ensures (x + y) + z == x + (y + z)
  {
  }

  /** A character of the other class (or in front of nothing) starts a run of its own. */
  lemma PrependNew(c: char, rest: seq<string>)
    requires Maximal(rest) && (rest == [] || IsDigit(c) != IsDigit(rest[0][0]))
    ensures Maximal(Prepend(c, rest)) && Concat(Prepend(c, rest)) == [c] + Concat(rest)
  {
    var runs := Prepend(c, rest);
    assert runs == [[c]] + rest;
    forall i | 0 <= i < |runs|
      ensures runs[i] != [] && Uniform(runs[i])
    {
      if i > 0 {
        assert runs[i] == rest[i - 1];
      }
    }
    forall i | 0 <= i < |runs| - 1
      ensures IsDigit(runs[i][0]) != IsDigit(runs[i + 1][0])
    {
      assert runs[i + 1] == rest[i];
      if i > 0 {
        assert runs[i] == rest[i - 1];
      }
    }
  }

  function DigitValue(c: char): nat
  {
    if IsDigit(c) then (c as int - '0' as int) else 0
  }

  /** The number a string of decimal digits spells, most significant first. */
  function DecimalValue(digits: string): (v: nat)
  {
    if digits == [] then 0
    else 10 * DecimalValue(digits[..|digits| - 1]) + DigitValue(digits[|digits| - 1])
  }

  function ToPiece(run: string): Piece
  {
    if run != [] && IsDigit(run[0]) then Num(DecimalValue(run)) else Text(run)
  }

  function Pieces(runs: seq<string>): (key: seq<Piece>)
    ensures |key| == |runs|
  {
    seq(|runs|, i requires 0 <= i < |runs| => ToPiece(runs[i]))
  }

  /** The sort key of a line: one piece per run of NUL followed by the line. */
  function Key(s: string): (key: seq<Piece>)
  {
    Pieces(Runs(['\0'] + s))
  }

  /** Maximal runs alternate between the two classes, starting with the class of the first run. */
  lemma {:induction false} RunsAlternate(runs: seq<string>, i: nat)
    requires forall j :: 0 <= j < |runs| ==> runs[j] != []
    requires forall j :: 0 <= j < |runs| - 1 ==> IsDigit(runs[j][0]) != IsDigit(runs[j + 1][0])
    requires i < |runs|
    ensures IsDigit(runs[i][0]) == (IsDigit(runs[0][0]) != (i % 2 == 1))
  {
    if i > 0 {
      RunsAlternate(runs, i - 1);
    }
  }

  /** Pieces at odd positions are numbers, pieces at even positions text. */
  predicate Alternating(key: seq<Piece>)
  {
    forall i :: 0 <= i < |key| ==> (key[i].Num? <==> i % 2 == 1)
  }

  /**
   * The shape of a key: it starts with a text piece beginning with NUL and alternates text
   * and numbers; each piece comes from the run at its position, a text piece holds no digit,
   * a number is the value of its digit run, and the runs spell NUL followed by the line.
   */
  lemma KeyShape(s: string)
    ensures var runs, key := Runs(['\0'] + s), Key(s);
      && |key| == |runs| >= 1
      && Concat(runs) == ['\0'] + s
      && key[0].Text? && key[0].text[0] == '\0'
      && Alternating(key)
      && (forall i :: 0 <= i < |key| ==> key[i] == ToPiece(runs[i]))
      && (forall i :: 0 <= i < |key| && key[i].Text? ==> forall j :: 0 <= j < |runs[i]| ==> !IsDigit(runs[i][j]))
      && (forall i :: 0 <= i < |key| && key[i].Num? ==>
            key[i].value == DecimalValue(runs[i]) && forall j :: 0 <= j < |runs[i]| ==> IsDigit(runs[i][j]))
  {
    var runs, key := Runs(['\0'] + s), Key(s);
    RunsSpec(['\0'] + s);
    forall i | 0 <= i < |key|
      ensures key[i].Num? <==> i % 2 == 1
    {
      RunsAlternate(runs, i);
    }
  }

  /** A non-empty string of one class is a single run. */
  lemma {:induction false} RunsOfUniform(s: string)
    requires s != [] && Uniform(s)
    ensures Runs(s) == [s]
  {
    if |s| > 1 {
      var tail := s[1..];
      assert Uniform(tail) by {
        forall j | 0 <= j < |tail|
          ensures IsDigit(tail[j]) == IsDigit(tail[0])
        {
          assert tail[j] == s[j + 1];
        }
      }
      RunsOfUniform(tail);
      assert IsDigit(s[0]) == IsDigit(tail[0]);
      assert Runs(s) == [[s[0]] + tail] + Runs(tail)[1..];
      assert [s[0]] + tail == s;
    } else {
      assert s[1..] == [];
      assert [s[0]] == s;
    }
  }

  lemma RunsCons(c: char, t: string)
    ensures Runs([c] + t) == Prepend(c, Runs(t))
  {
    assert ([c] + t)[1..] == t;
  }

  /** Where the class changes between two strings, their runs are the runs of each. */
  lemma {:induction false} RunsAppend(a: string, b: string)
    requires a != [] && b != [] && IsDigit(a[|a| - 1]) != IsDigit(b[0])
    ensures Runs(a + b) == Runs(a) + Runs(b)
  {
    var tail := a[1..];
    assert a == [a[0]] + tail;
    assert a + b == [a[0]] + (tail + b);
    RunsCons(a[0], tail + b);
    RunsCons(a[0], tail);
    if tail == [] {
      assert tail + b == b;
    } else {
      assert tail[|tail| - 1] == a[|a| - 1];
      RunsAppend(tail, b);
      PrependAppend(a[0], Runs(tail), Runs(b));
    }
  }

  lemma PrependAppend(c: char, rs: seq<string>, rb: seq<string>)
    requires rs != [] && forall i :: 0 <= i < |rs| ==> rs[i] != []
    requires forall i :: 0 <= i < |rb| ==> rb[i] != []
    ensures Prepend(c, rs + rb) == Prepend(c, rs) + rb
  {
    assert (rs + rb)[0] == rs[0];
    assert (rs + rb)[1..] == rs[1..] + rb;
  }

  lemma PiecesAppend(r1: seq<string>, r2: seq<string>)
    ensures Pieces(r1 + r2) == Pieces(r1) + Pieces(r2)
  {
    var p := Pieces(r1 + r2);
    forall i | 0 <= i < |p|
      ensures p[i] == (Pieces(r1) + Pieces(r2))[i]
    {
      if i >= |r1| {
        assert (r1 + r2)[i] == r2[i - |r1|];
      }
    }
  }

  // ---------------------------------------------------------------------------------------
  // Comparison, as for Python lists of strings and integers.

  /** Text order: lexicographic by character code. */
  predicate StrLess(a: string, b: string)
  {
    if a == [] then b != [] else b != [] && (a[0] < b[0] || (a[0] == b[0] && StrLess(a[1..], b[1..])))
  }

  /** Pieces of different kinds are never compared in keys of lines (see KeyShape); they are not ordered. */
  predicate PieceLess(x: Piece, y: Piece)
  {
    match (x, y)
    case (Text(a), Text(b)) => StrLess(a, b)
    case (Num(m), Num(n)) => m < n
    case _ => false
  }

  /** Lexicographic order on keys: the first differing piece decides, and a proper prefix comes first. */
  predicate KeyLess(a: seq<Piece>, b: seq<Piece>)
  {
    if a == [] then b != [] else b != [] && (PieceLess(a[0], b[0]) || (a[0] == b[0] && KeyLess(a[1..], b[1..])))
  }

  lemma {:induction false} StrLessAsym(a: string, b: string)
    ensures StrLess(a, b) ==> !StrLess(b, a)
  {
    if a != [] && b != [] && a[0] == b[0] {
      StrLessAsym(a[1..], b[1..]);
    }
  }

  lemma {:induction false} StrLessTrans(a: string, b: string, c: string)
    requires StrLess(a, b) && StrLess(b, c)
    ensures StrLess(a, c)
  {
    if a != [] && a[0] == b[0] && b[0] == c[0] {
      StrLessTrans(a[1..], b[1..], c[1..]);
    }
  }

  lemma {:induction false} StrLessTotal(a: string, b: string)
    ensures StrLess(a, b) || a == b || StrLess(b, a)
  {
    if a != [] && b != [] && a[0] == b[0] {
      StrLessTotal(a[1..], b[1..]);
      if a[1..] == b[1..] {
        assert a == [a[0]] + a[1..] && b == [b[0]] + b[1..];
      }
    }
  }

  lemma PieceLessAsym(x: Piece, y: Piece)
    ensures PieceLess(x, y) ==> !PieceLess(y, x) && x != y
  {
    if x.Text? && y.Text? {
      StrLessAsym(x.text, y.text);
      StrLessAsym(y.text, x.text);
    }
  }

  lemma {:induction false} KeyLessAsym(a: seq<Piece>, b: seq<Piece>)
    ensures KeyLess(a, b) ==> !KeyLess(b, a)
  {
    if a != [] && b != [] {
      PieceLessAsym(a[0], b[0]);
      PieceLessAsym(b[0], a[0]);
      KeyLessAsym(a[1..], b[1..]);
    }
  }

  lemma {:induction false} KeyLessTrans(a: seq<Piece>, b: seq<Piece>, c: seq<Piece>)
    requires KeyLess(a, b) && KeyLess(b, c)
    ensures KeyLess(a, c)
  {
    if a != [] {
      if PieceLess(a[0], b[0]) && PieceLess(b[0], c[0]) {
        if a[0].Text? {
          StrLessTrans(a[0].text, b[0].text, c[0].text);
        }
      } else if a[0] == b[0] && b[0] == c[0] {
        KeyLessTrans(a[1..], b[1..], c[1..]);
      }
    }
  }

  /** Two keys whose pieces agree in kind position by position. */
  predicate SameShape(a: seq<Piece>, b: seq<Piece>)
  {
    forall i :: 0 <= i < |a| && i < |b| ==> a[i].Num? == b[i].Num?
  }

  lemma {:induction false} KeyLessTotal(a: seq<Piece>, b: seq<Piece>)
    requires SameShape(a, b)
    ensures KeyLess(a, b) || a == b || KeyLess(b, a)
  {
    if a != [] && b != [] {
      assert a[0].Num? == b[0].Num?;
      if a[0].Text? {
        StrLessTotal(a[0].text, b[0].text);
      }
      if a[0] == b[0] {
        assert SameShape(a[1..], b[1..]) by {
          forall i | 0 <= i < |a[1..]| && i < |b[1..]|
            ensures a[1..][i].Num? == b[1..][i].Num?
          {
            assert a[1..][i] == a[i + 1] && b[1..][i] == b[i + 1];
          }
        }
        KeyLessTotal(a[1..], b[1..]);
        if a[1..] == b[1..] {
          assert a == [a[0]] + a[1..] && b == [b[0]] + b[1..];
        }
      }
    }
  }

  /** The keys of any two lines are comparable: one is less, or they are equal. */
  lemma KeysComparable(s: string, t: string)
    ensures KeyLess(Key(s), Key(t)) || Key(s) == Key(t) || KeyLess(Key(t), Key(s))
  {
    KeyShape(s);
    KeyShape(t);
    KeyLessTotal(Key(s), Key(t));
  }

  /** Keys that agree up to a position are ordered by the pieces at that position. */
  lemma {:induction false} KeyLessAtDifference(c: seq<Piece>, x: Piece, a: seq<Piece>, y: Piece, b: seq<Piece>)
    requires PieceLess(x, y)
    ensures KeyLess(c + [x] + a, c + [y] + b)
  {
    if c != [] {
      KeyLessAtDifference(c[1..], x, a, y, b);
      assert (c + [x] + a)[0] == c[0] && (c + [y] + b)[0] == c[0];
      assert (c + [x] + a)[1..] == c[1..] + [x] + a && (c + [y] + b)[1..] == c[1..] + [y] + b;
    } else {
      assert c + [x] + a == [x] + a && c + [y] + b == [y] + b;
    }
  }

  lemma {:induction false} StrLessCommonPrefix(c: string, a: string, b: string)
    requires StrLess(a, b)
    ensures StrLess(c + a, c + b)
  {
    if c != [] {
      StrLessCommonPrefix(c[1..], a, b);
      assert (c + a)[0] == c[0] && (c + b)[0] == c[0];
      assert (c + a)[1..] == c[1..] + a && (c + b)[1..] == c[1..] + b;
    } else {
      assert c + a == a && c + b == b;
    }
  }

  /**
   * Digit runs compare by value: two lines that agree up to a digit run, and whose
   * differing digit runs are maximal, are ordered by the numbers those runs spell.
   */
  lemma DigitRunsCompareByValue(p: string, d1: string, q1: string, d2: string, q2: string)
    requires d1 != [] && d2 != [] && Uniform(d1) && Uniform(d2) && IsDigit(d1[0]) && IsDigit(d2[0])
    requires p == [] || !IsDigit(p[|p| - 1])
    requires q1 == [] || !IsDigit(q1[0])
    requires q2 == [] || !IsDigit(q2[0])
    requires DecimalValue(d1) < DecimalValue(d2)
    ensures KeyLess(Key(p + d1 + q1), Key(p + d2 + q2))
  {
    var head := ['\0'] + p;
    LastOfHead(p);
    KeyOfLine(p, d1, q1);
    KeyOfLine(p, d2, q2);
    SplitKey(head, d1, q1);
    SplitKey(head, d2, q2);
    KeyLessAtDifference(Pieces(Runs(head)), Num(DecimalValue(d1)), Pieces(Runs(q1)), Num(DecimalValue(d2)), Pieces(Runs(q2)));
  }

  lemma LastOfHead(p: string)
    requires p == [] || !IsDigit(p[|p| - 1])
    ensures var head := ['\0'] + p; head != [] && !IsDigit(head[|head| - 1])
  {
  }

  lemma KeyOfLine(p: string, d: string, q: string)
    ensures Key(p + d + q) == Pieces(Runs(['\0'] + p + d + q))
  {
    assert ['\0'] + p + d + q == ['\0'] + (p + d + q);
  }

  /** The key pieces of a line made of a head, a maximal digit run and a tail. */
  lemma SplitKey(head: string, d: string, q: string)
    requires head != [] && !IsDigit(head[|head| - 1])
    requires d != [] && Uniform(d) && IsDigit(d[0])
    requires q == [] || !IsDigit(q[0])
    ensures Pieces(Runs(head + d + q)) == Pieces(Runs(head)) + [Num(DecimalValue(d))] + Pieces(Runs(q))
  {
    SplitRuns(head, d, q);
    PiecesAppend(Runs(head) + [d], Runs(q));
    PiecesAppend(Runs(head), [d]);
  }

  lemma SplitRuns(head: string, d: string, q: string)
    requires head != [] && !IsDigit(head[|head| - 1])
    requires d != [] && Uniform(d) && IsDigit(d[0])
    requires q == [] || !IsDigit(q[0])
    ensures Runs(head + d + q) == Runs(head) + [d] + Runs(q)
  {
    RunsOfUniform(d);
    RunsAppend(head, d);
    if q != [] {
      var hd := head + d;
      assert hd[|hd| - 1] == d[|d| - 1];
      RunsAppend(hd, q);
    } else {
      assert head + d + q == head + d;
      assert Runs(head) + [d] + Runs(q) == Runs(head) + [d];
    }
  }

  /**
   * The ordering the key exists for: `10.2.0.5` comes before `10.10.0.5` by key, while
   * plain text order would put it after.
   */
  lemma NumericOrderExample()
    ensures KeyLess(Key("10.0.0.0/8,10.2.0.5"), Key("10.0.0.0/8,10.10.0.5"))
    ensures StrLess("10.0.0.0/8,10.10.0.5", "10.0.0.0/8,10.2.0.5")
  {
    var p, q := "10.0.0.0/8,10.", ".0.5";
    assert DecimalValue("2") == 2;
    assert DecimalValue("10") == 10 by {
      assert "10"[..1] == "1";
    }
    DigitRunsCompareByValue(p, "2", q, "10", q);
    assert p + "2" + q == "10.0.0.0/8,10.2.0.5";
    assert p + "10" + q == "10.0.0.0/8,10.10.0.5";
    StrLessCommonPrefix(p, "10.0.5", "2.0.5");
    assert p + "10.0.5" == "10.0.0.0/8,10.10.0.5";
    assert p + "2.0.5" == "10.0.0.0/8,10.2.0.5";
  }

  // ---------------------------------------------------------------------------------------
  // Sorting lines by key.

  /** No line has a key less than that of a line before it. */
  predicate Sorted(lines: seq<string>)
  {
    forall i, j :: 0 <= i < j < |lines| ==> !KeyLess(Key(lines[j]), Key(lines[i]))
  }

  /** Inserts `x` after every line whose key is not greater, keeping lines of equal keys in order. */
  function InsertByKey(x: string, lines: seq<string>): (r: seq<string>)
    ensures multiset(r) == multiset(lines) + multiset{x}
  {
    if lines == [] || KeyLess(Key(x), Key(lines[0])) then [x] + lines
    else
      assert lines == [lines[0]] + lines[1..];
      [lines[0]] + InsertByKey(x, lines[1..])
  }

  /** Python's `sorted(lines, key=keyfunc)`, as a stable insertion sort. */
  function SortByKey(lines: seq<string>): (r: seq<string>)
    ensures multiset(r) == multiset(lines)
  {
    if lines == [] then []
    else
      assert lines == lines[..|lines| - 1] + [lines[|lines| - 1]];
      InsertByKey(lines[|lines| - 1], SortByKey(lines[..|lines| - 1]))
  }

  /** A line whose key is less than the first line's is less than every line of a sorted list. */
  lemma LessThanHead(x: string, lines: seq<string>, j: nat)
    requires Sorted(lines) && lines != [] && KeyLess(Key(x), Key(lines[0])) && j < |lines|
    ensures !KeyLess(Key(lines[j]), Key(x))
  {
    if j > 0 {
      KeysComparable(lines[0], lines[j]);
      if KeyLess(Key(lines[0]), Key(lines[j])) {
        KeyLessTrans(Key(x), Key(lines[0]), Key(lines[j]));
      }
    }
    KeyLessAsym(Key(x), Key(lines[j]));
  }

  lemma {:induction false} InsertByKeySorted(x: string, lines: seq<string>)
    requires Sorted(lines)
    ensures Sorted(InsertByKey(x, lines))
  {
    if lines == [] {
    } else if KeyLess(Key(x), Key(lines[0])) {
      forall k | 0 <= k < |lines|
        ensures !KeyLess(Key(lines[k]), Key(x))
      {
        LessThanHead(x, lines, k);
      }
      ConsSorted(x, lines);
    } else {
      var tail := lines[1..];
      InsertByKeySorted(x, tail);
      InsertKeepsLowerBound(lines[0], x, tail);
      ConsSorted(lines[0], InsertByKey(x, tail));
    }
  }

  /** A line no key-greater than any of a sorted list can go in front of it. */
  lemma ConsSorted(h: string, s: seq<string>)
    requires Sorted(s) && NotBelow(h, s)
    ensures Sorted([h] + s)
  {
    var r := [h] + s;
    forall i, j | 0 <= i < j < |r|
      ensures !KeyLess(Key(r[j]), Key(r[i]))
    {
      assert r[j] == s[j - 1];
      if i > 0 {
        assert r[i] == s[i - 1];
      }
    }
  }

  /** No line of `s` has a key less than that of `h`. */
  predicate NotBelow(h: string, s: seq<string>)
  {
    forall k :: 0 <= k < |s| ==> !KeyLess(Key(s[k]), Key(h))
  }

  lemma ConsNotBelow(h: string, y: string, s: seq<string>)
    requires NotBelow(h, s) && !KeyLess(Key(y), Key(h))
    ensures NotBelow(h, [y] + s)
  {
    var r := [y] + s;
    forall k | 0 <= k < |r|
      ensures !KeyLess(Key(r[k]), Key(h))
    {
      if k > 0 {
        assert r[k] == s[k - 1];
      }
    }
  }

  /** Inserting a line no key-smaller than `h` into lines no key-smaller than `h` keeps that so. */
  lemma {:induction false} InsertKeepsLowerBound(h: string, x: string, s: seq<string>)
    requires NotBelow(h, s) && !KeyLess(Key(x), Key(h))
    ensures NotBelow(h, InsertByKey(x, s))
  {
    if s == [] || KeyLess(Key(x), Key(s[0])) {
      ConsNotBelow(h, x, s);
    } else {
      assert NotBelow(h, s[1..]) by {
        forall k | 0 <= k < |s[1..]|
          ensures !KeyLess(Key(s[1..][k]), Key(h))
        {
          assert s[1..][k] == s[k + 1];
        }
      }
      InsertKeepsLowerBound(h, x, s[1..]);
      ConsNotBelow(h, s[0], InsertByKey(x, s[1..]));
    }
  }

  /** The sort returns the same lines, sorted by key. */
  lemma {:induction false} SortByKeySorted(lines: seq<string>)
    ensures Sorted(SortByKey(lines))
  {
    if lines != [] {
      SortByKeySorted(lines[..|lines| - 1]);
      InsertByKeySorted(lines[|lines| - 1], SortByKey(lines[..|lines| - 1]));
    }
  }
}
