/**
 * The two pieces of the Java library the graph parsers lean on:
 * String.split with a one-character pattern (or a class of characters, for
 * "\\s") and Integer.parseInt on decimal text.
 */
module JavaText {
  import opened Wrappers
  import JavaInt

  // ---------------------------------------------------------------------------
  // String.split
  // ---------------------------------------------------------------------------

  /** No character of s is a separator. */
  predicate Clean(s: string, seps: set<char>) {
    forall i :: 0 <= i < |s| ==> s[i] !in seps
  }

  /** The pieces of s between separators, empty ones included. */
  function Fields(s: string, seps: set<char>): (r: seq<string>)
    ensures |r| >= 1
    decreases |s|
  {
    if |s| == 0 then [""]
    else if s[0] in seps then [""] + Fields(s[1..], seps)
    else var rest := Fields(s[1..], seps); [[s[0]] + rest[0]] + rest[1..]
  }

  /** The pieces put back together around a separator c. */
  function Join(pieces: seq<string>, c: char): string
    requires |pieces| >= 1
  {
    if |pieces| == 1 then pieces[0] else pieces[0] + [c] + Join(pieces[1..], c)
  }

  /** Java's split drops the empty strings at the end of the list. */
  function DropTrailingEmpty(r: seq<string>): seq<string> {
    if |r| == 0 || r[|r| - 1] != "" then r else DropTrailingEmpty(r[..|r| - 1])
  }

  /**
   * s.split(pattern) for a pattern that matches exactly one character of
   * seps: the string itself when nothing matches (a single field), otherwise
   * the fields with the trailing empty ones dropped.
   */
  function Split(s: string, seps: set<char>): seq<string> {
    var fields := Fields(s, seps);
    if |fields| == 1 then fields else DropTrailingEmpty(fields)
  }

  /** What is dropped is empty, what is kept is a prefix, and it does not end with an empty string. */
  lemma {:induction false} DropTrailingEmptyMeaning(r: seq<string>)
    ensures var t := DropTrailingEmpty(r);
            |t| <= |r| && t == r[..|t|] && (|t| > 0 ==> t[|t| - 1] != "") &&
            forall i :: |t| <= i < |r| ==> r[i] == ""
  {
    if |r| > 0 && r[|r| - 1] == "" {
      DropTrailingEmptyMeaning(r[..|r| - 1]);
    }
  }

  /** There is a single field exactly when no separator occurs, and it is then the string itself. */
  lemma {:induction false} SingleField(s: string, seps: set<char>)
    ensures |Fields(s, seps)| == 1 <==> Clean(s, seps)
    ensures Clean(s, seps) ==> Fields(s, seps) == [s]
    decreases |s|
  {
    if |s| > 0 {
      SingleField(s[1..], seps);
      if !Clean(s[1..], seps) {
        var i :| 0 <= i < |s[1..]| && s[1..][i] in seps;
        assert s[i + 1] in seps;
      }
      if Clean(s, seps) {
        assert s == [s[0]] + s[1..];
      }
    }
  }

  /** Putting the fields back together around the separator gives the string back. */
  lemma {:induction false} FieldsJoin(s: string, c: char)
    ensures Join(Fields(s, {c}), c) == s
    decreases |s|
  {
    if |s| > 0 {
      var rest := Fields(s[1..], {c});
      FieldsJoin(s[1..], c);
      if s[0] == c {
        assert Fields(s, {c})[1..] == rest;
        assert s == [c] + s[1..];
      } else {
        JoinCons(s[0], rest, c);
        assert s == [s[0]] + s[1..];
      }
    }
  }

  lemma JoinCons(x: char, rest: seq<string>, c: char)
    requires |rest| >= 1
    ensures Join([[x] + rest[0]] + rest[1..], c) == [x] + Join(rest, c)
  {
    var p := [[x] + rest[0]] + rest[1..];
    if |rest| > 1 {
      assert p[1..] == rest[1..];
    }
  }

  /** No field holds a separator. */
  lemma {:induction false} FieldsClean(s: string, seps: set<char>)
    ensures forall k :: 0 <= k < |Fields(s, seps)| ==> Clean(Fields(s, seps)[k], seps)
    decreases |s|
  {
    if |s| > 0 {
      FieldsClean(s[1..], seps);
      var rest := Fields(s[1..], seps);
      if s[0] !in seps {
        assert Clean(rest[0], seps);
        assert Clean([s[0]] + rest[0], seps);
      }
    }
  }

  /** Every piece split returns is free of separators, and split keeps a leading prefix of the fields. */
  lemma SplitClean(s: string, seps: set<char>)
    ensures forall k :: 0 <= k < |Split(s, seps)| ==> Clean(Split(s, seps)[k], seps)
    ensures Clean(s, seps) ==> Split(s, seps) == [s]
    ensures !Clean(s, seps) ==> Split(s, seps) == DropTrailingEmpty(Fields(s, seps))
  {
    FieldsClean(s, seps);
    SingleField(s, seps);
    DropTrailingEmptyMeaning(Fields(s, seps));
  }

  // ---------------------------------------------------------------------------
  // Integer.parseInt
  // ---------------------------------------------------------------------------

  predicate IsDigit(c: char) { '0' <= c <= '9' }

  /** Every character of s is a decimal digit. */
  predicate AllDigits(s: string) {
    |s| == 0 || (AllDigits(s[..|s| - 1]) && IsDigit(s[|s| - 1]))
  }

  /** Each character of a string of digits is a digit. */
  lemma {:induction false} AllDigitsAt(s: string, i: nat)
    requires AllDigits(s) && i < |s|
    ensures IsDigit(s[i])
  {
    if i < |s| - 1 {
      AllDigitsAt(s[..|s| - 1], i);
    }
  }

  /** The value of a string of decimal digits, the most significant first. */
  function DigitsValue(s: string): nat
    requires AllDigits(s)
  {
    if |s| == 0 then 0 else DigitsValue(s[..|s| - 1]) * 10 + (s[|s| - 1] - '0') as int
  }

  /**
   * Integer.parseInt(s): an optional sign followed by at least one digit,
   * and a value that fits in an int. None stands for NumberFormatException.
   */
  function ParseInt(s: string): (r: Option<int>)
    ensures r.Some? ==> JavaInt.InRange(r.value)
  {
    var negative := |s| > 0 && s[0] == '-';
    var digits := if |s| > 0 && (s[0] == '-' || s[0] == '+') then s[1..] else s;
    if |digits| == 0 || !AllDigits(digits) then None
    else
      var v: int := if negative then -(DigitsValue(digits) as int) else DigitsValue(digits);
      if JavaInt.InRange(v) then Some(v) else None
  }

  /** The decimal digits of n, with no leading zero. */
  function Digits(n: nat): (s: string)
    ensures |s| >= 1 && AllDigits(s)
  {
    if n < 10 then [('0' as int + n) as char] else Digits(n / 10) + [('0' as int + n % 10) as char]
  }

  /** Integer.toString(n). */
  function IntToString(n: int): string {
    if n < 0 then "-" + Digits(-n) else Digits(n)
  }

  lemma {:induction false} DigitsValueOf(n: nat)
    ensures DigitsValue(Digits(n)) == n
  {
    if n >= 10 {
      DigitsValueOf(n / 10);
      var s := Digits(n);
      assert s[..|s| - 1] == Digits(n / 10);
    }
  }

  /** parseInt reads back every int that toString writes. */
  lemma ParseIntToString(n: int)
    requires JavaInt.InRange(n)
    ensures ParseInt(IntToString(n)) == Some(n)
  {
    if n < 0 {
      DigitsValueOf(-n);
      ParseNegative(Digits(-n));
    } else {
      DigitsValueOf(n);
      ParseUnsigned(Digits(n));
    }
  }

  lemma ParseNegative(d: string)
    requires |d| > 0 && AllDigits(d) && JavaInt.InRange(-(DigitsValue(d) as int))
    ensures ParseInt("-" + d) == Some(-(DigitsValue(d) as int))
  {
    var s := "-" + d;
    assert s[0] == '-' && s[1..] == d;
  }

  lemma ParseUnsigned(d: string)
    requires |d| > 0 && AllDigits(d) && JavaInt.InRange(DigitsValue(d))
    ensures ParseInt(d) == Some(DigitsValue(d))
  {
    AllDigitsAt(d, 0);
  }

  /** Java reads the first k fields of a split line as ints, in order; None if one is missing or malformed. */
  function ParseFields(fields: seq<string>, k: nat): (r: Option<seq<int>>)
    ensures r.Some? ==> |fields| >= k && |r.value| == k && forall i :: 0 <= i < k ==> ParseInt(fields[i]) == Some(r.value[i])
    ensures r.None? ==> |fields| < k || exists i :: 0 <= i < k && ParseInt(fields[i]).None?
  {
    if k == 0 then Some([])
    else if |fields| < k then None
    else match (ParseFields(fields, k - 1), ParseInt(fields[k - 1]))
      case (Some(front), Some(last)) => Some(front + [last])
      case _ => None
  }

  // ---------------------------------------------------------------------------
  // Reading back what was written
  // ---------------------------------------------------------------------------

  /** Fields undoes Join when no piece holds the separator. */
  lemma {:induction false} FieldsOfJoin(pieces: seq<string>, c: char)
    requires |pieces| >= 1 && forall k :: 0 <= k < |pieces| ==> Clean(pieces[k], {c})
    ensures Fields(Join(pieces, c), {c}) == pieces
  {
    if |pieces| > 1 {
      FieldsOfJoin(pieces[1..], c);
      FieldsAfterClean(pieces[0], Join(pieces[1..], c), c);
      assert pieces == [pieces[0]] + pieces[1..];
    } else {
      FieldsAfterClean(pieces[0], "", c);
    }
  }

  /** A clean prefix becomes the first field. */
  lemma {:induction false} FieldsAfterClean(p: string, rest: string, c: char)
    requires Clean(p, {c})
    ensures |rest| == 0 ==> Fields(p, {c}) == [p]
    ensures Fields(p + [c] + rest, {c}) == [p] + Fields(rest, {c})
    decreases |p|
  {
    if |p| > 0 {
      FieldsAfterClean(p[1..], rest, c);
      assert (p + [c] + rest)[1..] == p[1..] + [c] + rest;
      assert [p[0]] + p[1..] == p;
    } else {
      assert (p + [c] + rest)[1..] == rest;
    }
  }

  /** split reads back the pieces Join wrote, as long as the last one is not empty. */
  lemma SplitJoin(pieces: seq<string>, c: char)
    requires |pieces| >= 1 && forall k :: 0 <= k < |pieces| ==> Clean(pieces[k], {c})
    requires |pieces| == 1 || pieces[|pieces| - 1] != ""
    ensures Split(Join(pieces, c), {c}) == pieces
  {
    FieldsOfJoin(pieces, c);
  }

  /** The text toString writes holds no character outside the digits and '-'. */
  lemma IntToStringClean(n: int, seps: set<char>)
    requires forall ch :: ch in seps ==> !IsDigit(ch) && ch != '-'
    ensures Clean(IntToString(n), seps) && |IntToString(n)| > 0
  {
    var d := if n < 0 then Digits(-n) else Digits(n);
    forall i | 0 <= i < |d| ensures IsDigit(d[i]) {
      AllDigitsAt(d, i);
    }
    if n < 0 {
      assert forall i :: 1 <= i < |IntToString(n)| ==> IntToString(n)[i] == d[i - 1];
    }
  }
}
