/**
 The string operations the status menu relies on: Swift's `split(separator: "\n")`,
 `contains`, `lowercased()` and decimal interpolation of an integer.
 */
module Text {

  /** True when `s` consists of newline characters only (the empty string included). */
  predicate Blank(s: string) {
    forall i :: 0 <= i < |s| ==> s[i] == '\n'
  }

  /** True when `s` ends in a carriage return, so that a "\n" after it forms one Character "\r\n" with it. */
  predicate EndsInCR(s: string) {
    |s| > 0 && s[|s| - 1] == '\r'
  }

  /**
   True when index `i` of `s` holds the Character "\n" that `split` separates on: a
   newline that does not follow a carriage return (a Swift Character is a grapheme
   cluster, and "\r\n" is a single one that is not equal to "\n").
   */
  predicate SeparatorAt(s: string, i: int)
    requires 0 <= i < |s|
  {
    s[i] == '\n' && !(i > 0 && s[i - 1] == '\r')
  }

  /** True when `s` holds no separating newline. */
  predicate NoSeparator(s: string) {
    forall i :: 0 <= i < |s| ==> !SeparatorAt(s, i)
  }

  /** A piece `split` can produce: non-empty, with no separating newline. */
  predicate IsPiece(l: string) {
    |l| > 0 && NoSeparator(l)
  }

  /** A line that stays one piece when a newline is written after it: a piece not ending in a carriage return. */
  predicate IsLine(l: string) {
    IsPiece(l) && !EndsInCR(l)
  }

  /** The piece collected so far, dropped when empty. */
  function Emit(cur: string): seq<string> {
    if |cur| == 0 then [] else [cur]
  }

  /** A prefix of a string without separators has none either. */
  lemma NoSeparatorPrefix(a: string, b: string)
    requires NoSeparator(a + b)
    ensures NoSeparator(a)
  {
    forall i | 0 <= i < |a| ensures !SeparatorAt(a, i) {
      assert (a + b)[i] == a[i];
      assert i > 0 ==> (a + b)[i - 1] == a[i - 1];
      assert !SeparatorAt(a + b, i);
    }
  }

  /** Appending a character that is not a separator after `cur` keeps `cur` separator-free. */
  lemma NoSeparatorExtend(cur: string, c: char)
    requires NoSeparator(cur)
    requires c == '\n' ==> EndsInCR(cur)
    ensures NoSeparator(cur + [c])
  {
    var u := cur + [c];
    forall i | 0 <= i < |u| ensures !SeparatorAt(u, i) {
      if i < |cur| {
        assert u[i] == cur[i];
        assert i > 0 ==> u[i - 1] == cur[i - 1];
        assert !SeparatorAt(cur, i);
      }
    }
  }

  /**
   Splits `s` on separating newlines, continuing a piece `cur` already collected; empty
   pieces are dropped, as `split` does by default.
   */
  function SplitFrom(s: string, cur: string): (r: seq<string>)
    requires NoSeparator(cur)
    ensures forall k :: 0 <= k < |r| ==> IsPiece(r[k])
    ensures |cur| > 0 ==> |r| > 0
    decreases |s|
  {
    if |s| == 0 then Emit(cur)
    else if s[0] == '\n' && !EndsInCR(cur) then Emit(cur) + SplitFrom(s[1..], [])
    else
      NoSeparatorExtend(cur, s[0]);
      SplitFrom(s[1..], cur + [s[0]])
  }

  /** `s.split(separator: "\n")`. */
  function Split(s: string): (r: seq<string>)
    ensures forall k :: 0 <= k < |r| ==> IsPiece(r[k])
  {
    SplitFrom(s, [])
  }

  /** The lines joined with a newline between consecutive ones. */
  function Join(lines: seq<string>): string
    decreases |lines|
  {
    if |lines| == 0 then ""
    else if |lines| == 1 then lines[0]
    else lines[0] + "\n" + Join(lines[1..])
  }

  /** A string that continues the current piece without a separator adds no piece of its own. */
  lemma {:induction false} SplitFromWithin(s: string, cur: string)
    requires NoSeparator(cur + s)
    ensures NoSeparator(cur)
    ensures SplitFrom(s, cur) == Emit(cur + s)
    decreases |s|
  {
    NoSeparatorPrefix(cur, s);
    if |s| > 0 {
      var u := cur + s;
      assert u[|cur|] == s[0];
      assert |cur| > 0 ==> u[|cur| - 1] == cur[|cur| - 1];
      assert !SeparatorAt(u, |cur|);
      assert u == (cur + [s[0]]) + s[1..];
      SplitFromWithin(s[1..], cur + [s[0]]);
    } else {
      assert cur + s == cur;
    }
  }

  /**
   Splitting distributes over a separating newline: the pieces of `s` then the pieces
   of `t`, provided what comes before the newline does not end in a carriage return.
   */
  lemma {:induction false} SplitFromNewline(s: string, t: string, cur: string)
    requires NoSeparator(cur) && !EndsInCR(cur + s)
    ensures SplitFrom(s + "\n" + t, cur) == SplitFrom(s, cur) + SplitFrom(t, [])
    decreases |s|
  {
    var u := s + "\n" + t;
    if |s| == 0 {
      assert cur + s == cur;
      assert u[0] == '\n' && u[1..] == t;
    } else {
      assert u[0] == s[0] && u[1..] == s[1..] + "\n" + t;
      if s[0] == '\n' && !EndsInCR(cur) {
        assert [] + s[1..] == s[1..];
        assert |s[1..]| > 0 ==> s[1..][|s[1..]| - 1] == (cur + s)[|cur + s| - 1];
        SplitFromNewline(s[1..], t, []);
      } else {
        NoSeparatorExtend(cur, s[0]);
        assert (cur + [s[0]]) + s[1..] == cur + s;
        SplitFromNewline(s[1..], t, cur + [s[0]]);
      }
    }
  }

  /** `split` undoes `Join` for lines that are pieces and do not end in a carriage return. */
  lemma {:induction false} SplitJoin(lines: seq<string>)
    requires forall k :: 0 <= k < |lines| ==> IsLine(lines[k])
    ensures Split(Join(lines)) == lines
    decreases |lines|
  {
    if |lines| == 1 {
      assert [] + lines[0] == lines[0];
      SplitFromWithin(lines[0], []);
    } else if |lines| > 1 {
      assert [] + lines[0] == lines[0];
      SplitFromNewline(lines[0], Join(lines[1..]), []);
      SplitFromWithin(lines[0], []);
      SplitJoin(lines[1..]);
    }
  }

  /** Writing a newline at the end never changes the number of pieces. */
  lemma {:induction false} SplitFromAppendNewline(s: string, cur: string)
    requires NoSeparator(cur)
    ensures |SplitFrom(s + "\n", cur)| == |SplitFrom(s, cur)|
    decreases |s|
  {
    var u := s + "\n";
    if |s| == 0 {
      assert u[1..] == [];
      if EndsInCR(cur) {
        NoSeparatorExtend(cur, '\n');
      }
    } else {
      assert u[0] == s[0] && u[1..] == s[1..] + "\n";
      if s[0] == '\n' && !EndsInCR(cur) {
        SplitFromAppendNewline(s[1..], []);
      } else {
        NoSeparatorExtend(cur, s[0]);
        SplitFromAppendNewline(s[1..], cur + [s[0]]);
      }
    }
  }

  /**
   A trailing newline adds no piece; after anything but a carriage return it leaves the
   pieces themselves unchanged too.
   */
  lemma {:induction false} SplitTrailingNewline(s: string)
    ensures |Split(s + "\n")| == |Split(s)|
    ensures !EndsInCR(s) ==> Split(s + "\n") == Split(s)
  {
    SplitFromAppendNewline(s, []);
    if !EndsInCR(s) {
      assert [] + s == s;
      SplitFromNewline(s, "", []);
      assert s + "\n" + "" == s + "\n";
    }
  }

  lemma {:induction false} SplitFromEmpty(s: string, cur: string)
    requires NoSeparator(cur)
    ensures |SplitFrom(s, cur)| == 0 <==> |cur| == 0 && Blank(s)
    decreases |s|
  {
    if |s| > 0 {
      if s[0] == '\n' && !EndsInCR(cur) {
        SplitFromEmpty(s[1..], []);
        if |cur| == 0 && Blank(s[1..]) {
          assert Blank(s) by {
            forall i | 1 <= i < |s| ensures s[i] == '\n' { assert s[i] == s[1..][i - 1]; }
          }
        }
      } else {
        NoSeparatorExtend(cur, s[0]);
      }
    }
  }

  /** "\r\n" is one Character, not a separator: "a\r\nb" is a single piece. */
  lemma CrLfIsNotASeparator()
    ensures Split("a\r\nb") == ["a\r\nb"]
  {
    SplitFromWithin("a\r\nb", []);
    assert [] + "a\r\nb" == "a\r\nb";
  }

  /** `split` yields no piece exactly when the string is empty or all newlines. */
  lemma SplitEmptyIffBlank(s: string)
    ensures |Split(s)| == 0 <==> Blank(s)
  {
    SplitFromEmpty(s, []);
  }

  /** True when `sub` occurs in `s` starting at index `i`. */
  predicate OccursAt(s: string, sub: string, i: int) {
    0 <= i && i + |sub| <= |s| && s[i..i + |sub|] == sub
  }

  /** `s.contains(sub)`. */
  predicate Contains(s: string, sub: string) {
    exists i | 0 <= i <= |s| :: OccursAt(s, sub, i)
  }

  /** Lower-cases one ASCII letter and leaves every other character unchanged. */
  function LowerChar(c: char): char {
    if 'A' <= c <= 'Z' then (c as int - 'A' as int + 'a' as int) as char else c
  }

  /** `s.lowercased()` restricted to ASCII letters. */
  function Lower(s: string): (r: string)
    ensures |r| == |s|
    ensures forall i :: 0 <= i < |s| ==> !('A' <= r[i] <= 'Z')
    ensures forall i :: 0 <= i < |s| ==> (r[i] == s[i] || 'A' <= s[i] <= 'Z')
    ensures forall i :: 0 <= i < |s| && 'A' <= s[i] <= 'Z' ==> r[i] as int == s[i] as int + 32
  {
    seq(|s|, i requires 0 <= i < |s| => LowerChar(s[i]))
  }

  predicate IsDigit(c: char) {
    '0' as int <= c as int <= '9' as int
  }

  function DigitChar(d: nat): char
    requires d < 10
  {
    ('0' as int + d) as char
  }

  /** Decimal rendering of `n`, as string interpolation `"\(n)"` prints it. */
  function NatToString(n: nat): (r: string)
    ensures |r| > 0
    ensures forall i :: 0 <= i < |r| ==> IsDigit(r[i])
    ensures r[0] == '0' ==> n == 0
    decreases n
  {
    if n < 10 then [DigitChar(n)] else NatToString(n / 10) + [DigitChar(n % 10)]
  }

  /** The value of a string of decimal digits. */
  function ParseNat(s: string): nat
    requires forall i :: 0 <= i < |s| ==> IsDigit(s[i])
    decreases |s|
  {
    if |s| == 0 then 0
    else
      assert IsDigit(s[|s| - 1]);
      ParseNat(s[..|s| - 1]) * 10 + (s[|s| - 1] as int - '0' as int)
  }

  /** Reading the decimal rendering of `n` gives back `n`. */
  lemma {:induction false} ParseNatToString(n: nat)
    ensures ParseNat(NatToString(n)) == n
    decreases n
  {
    var r := NatToString(n);
    if n >= 10 {
      assert r[..|r| - 1] == NatToString(n / 10);
      ParseNatToString(n / 10);
    }
  }
}
