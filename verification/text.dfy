/** The string operations the resolver relies on: `String.prototype.search`
    with a literal pattern, `split` on one separator character, and decimal
    digit strings. */
module Text {

  /** `p` occurs in `s` starting at index `i`. */
  predicate OccursAt(s: string, p: string, i: nat)
  {
    i + |p| <= |s| && s[i..i + |p|] == p
  }

  /** `p` occurs somewhere in `s`. */
  ghost predicate Contains(s: string, p: string)
  {
    exists i: nat :: OccursAt(s, p, i)
  }

  /** The first index at or after `i` where `p` occurs in `s`, or -1. Its
      specification is `SearchFromSpec`. */
  function SearchFrom(s: string, p: string, i: nat): (r: int)
    requires i <= |s|
    ensures r == -1 || i <= r <= |s|
    decreases |s| - i
  {
    if OccursAt(s, p, i) then i
    else if i == |s| then -1
    else SearchFrom(s, p, i + 1)
  }

  /** `SearchFrom(s, p, i)` is the first occurrence of `p` at or after `i`,
      and -1 exactly when there is none. */
  lemma {:induction false} SearchFromSpec(s: string, p: string, i: nat)
    requires i <= |s|
    ensures SearchFrom(s, p, i) != -1 ==> OccursAt(s, p, SearchFrom(s, p, i))
    ensures SearchFrom(s, p, i) == -1 <==> forall j: nat :: i <= j ==> !OccursAt(s, p, j)
    ensures SearchFrom(s, p, i) != -1 ==>
      forall j: nat :: i <= j < SearchFrom(s, p, i) ==> !OccursAt(s, p, j)
    decreases |s| - i
  {
    if OccursAt(s, p, i) {
    } else if i == |s| {
      forall j: nat | i <= j ensures !OccursAt(s, p, j) {
        if j > i {
          assert j + |p| > |s|;
        }
      }
    } else {
      SearchFromSpec(s, p, i + 1);
      if SearchFrom(s, p, i) == -1 {
        forall j: nat | i <= j ensures !OccursAt(s, p, j) {
          if j > i {
            assert i + 1 <= j;
          }
        }
      }
    }
  }

  /** `s.search(/p/)` for a pattern `p` without regular-expression
      metacharacters. Its specification is `SearchSpec`. */
  function Search(s: string, p: string): (r: int)
    ensures -1 <= r <= |s|
  {
    SearchFrom(s, p, 0)
  }

  /** `Search` gives the index of the first occurrence of `p` in `s`, and -1
      exactly when `p` does not occur. */
  lemma SearchSpec(s: string, p: string)
    ensures Search(s, p) == -1 <==> !Contains(s, p)
    ensures Search(s, p) != -1 ==> OccursAt(s, p, Search(s, p))
    ensures Search(s, p) != -1 ==> forall j: nat :: j < Search(s, p) ==> !OccursAt(s, p, j)
  {
    SearchFromSpec(s, p, 0);
  }

  /** `s.split(sep)` for a one-character separator: the maximal pieces
      between separators, always at least one (`"".split(".")` is `[""]`). */
  function Split(s: string, sep: char): (parts: seq<string>)
    ensures |parts| >= 1
    ensures forall k :: 0 <= k < |parts| ==> sep !in parts[k]
  {
    if |s| == 0 then [""]
    else
      var rest := Split(s[1..], sep);
      if s[0] == sep then [""] + rest
      else [[s[0]] + rest[0]] + rest[1..]
  }

  /** `parts.join(sep)`. */
  function Join(parts: seq<string>, sep: char): string
    requires |parts| >= 1
  {
    if |parts| == 1 then parts[0]
    else parts[0] + [sep] + Join(parts[1..], sep)
  }

  /** A separator-free prefix merges into the first piece of what follows. */
  lemma {:induction false} SplitSeparatorFreePrefix(a: string, t: string, sep: char)
    requires sep !in a
    ensures Split(a + t, sep) == [a + Split(t, sep)[0]] + Split(t, sep)[1..]
    decreases |a|
  {
    var st := Split(t, sep);
    if |a| == 0 {
      assert a + t == t;
      assert a + st[0] == st[0];
      assert st == [st[0]] + st[1..];
    } else {
      var a' := a[1..];
      assert (a + t)[0] == a[0];
      assert (a + t)[1..] == a' + t;
      SplitSeparatorFreePrefix(a', t, sep);
      var r := Split(a' + t, sep);
      assert r[0] == a' + Split(t, sep)[0];
      assert r[1..] == Split(t, sep)[1..];
      assert [a[0]] + r[0] == a + Split(t, sep)[0];
    }
  }

  /** Splitting a joined list of separator-free pieces gives the pieces back. */
  lemma {:induction false} SplitJoin(parts: seq<string>, sep: char)
    requires |parts| >= 1
    requires forall k :: 0 <= k < |parts| ==> sep !in parts[k]
    ensures Split(Join(parts, sep), sep) == parts
    decreases |parts|
  {
    if |parts| == 1 {
      SplitSeparatorFreePrefix(parts[0], "", sep);
      assert parts[0] + "" == parts[0];
    } else {
      var tail := Join(parts[1..], sep);
      SplitJoin(parts[1..], sep);
      assert ([sep] + tail)[1..] == tail;
      assert ([sep] + tail)[0] == sep;
      var st := Split([sep] + tail, sep);
      assert st == [""] + parts[1..];
      assert st[0] == "" && st[1..] == parts[1..];
      assert Join(parts, sep) == parts[0] + ([sep] + tail);
      SplitSeparatorFreePrefix(parts[0], [sep] + tail, sep);
      assert parts[0] + st[0] == parts[0];
      assert parts == [parts[0]] + parts[1..];
    }
  }

  /** Joining the pieces of a split restores the string. */
  lemma {:induction false} JoinSplit(s: string, sep: char)
    ensures Join(Split(s, sep), sep) == s
    decreases |s|
  {
    if |s| > 0 {
      var rest := Split(s[1..], sep);
      JoinSplit(s[1..], sep);
      if s[0] == sep {
        assert ([""] + rest)[1..] == rest;
      } else {
        var parts := [[s[0]] + rest[0]] + rest[1..];
        if |rest| > 1 {
          assert parts[1..] == rest[1..];
          assert Join(rest, sep) == rest[0] + [sep] + Join(rest[1..], sep);
        }
        assert s == [s[0]] + s[1..];
      }
    }
  }

  predicate IsDigit(c: char)
  {
    '0' <= c <= '9'
  }

  /** A non-empty string of decimal digits. */
  predicate IsDigits(s: string)
  {
    |s| > 0 && forall k :: 0 <= k < |s| ==> IsDigit(s[k])
  }

  /** The number a string of decimal digits denotes (leading zeros allowed). */
  function DigitsValue(s: string): nat
    requires forall k :: 0 <= k < |s| ==> IsDigit(s[k])
  {
    if |s| == 0 then 0
    else
      assert IsDigit(s[|s| - 1]);
      DigitsValue(s[..|s| - 1]) * 10 + (s[|s| - 1] as int - '0' as int)
  }

  /** The shortest decimal representation of `n`. */
  function ShowNat(n: nat): (r: string)
    ensures IsDigits(r)
  {
    if n < 10 then [('0' as int + n) as char]
    else ShowNat(n / 10) + [('0' as int + n % 10) as char]
  }

  /** Reading back a decimal representation gives the number. */
  lemma {:induction false} DigitsValueShowNat(n: nat)
    ensures DigitsValue(ShowNat(n)) == n
  {
    if n >= 10 {
      var r := ShowNat(n);
      DigitsValueShowNat(n / 10);
      assert r[..|r| - 1] == ShowNat(n / 10);
    }
  }
}
