/**
 * The string operations the log parser relies on, with JavaScript's meaning:
 * `split` on a literal separator, `slice(0, n)`, `replace` of the first
 * occurrence of a character, `filter` of empty lines, and the numeric
 * coercion of a size token, restricted here to decimal digits.
 */
module Text {
  import opened Wrappers

  /** `s.slice(0, n)`: the first `n` characters, or all of `s` when it is shorter. */
  function Slice(s: string, n: nat): (r: string)
    ensures r <= s
    ensures |r| == if |s| < n then |s| else n
  {
    if |s| < n then s else s[..n]
  }

  /** `s.split(sep)`: the pieces between the non-overlapping occurrences of `sep`, found from the left. */
  function Split(s: string, sep: string): (pieces: seq<string>)
    requires |sep| > 0
    ensures |pieces| >= 1
    decreases |s|
  {
    if |s| < |sep| then [s]
    else if s[..|sep|] == sep then [""] + Split(s[|sep|..], sep)
    else
      var rest := Split(s[1..], sep);
      [[s[0]] + rest[0]] + rest[1..]
  }

  /** `pieces.join(sep)`, the inverse of `Split`. */
  function Join(pieces: seq<string>, sep: string): string
    requires |pieces| >= 1
  {
    if |pieces| == 1 then pieces[0] else pieces[0] + sep + Join(pieces[1..], sep)
  }

  /** Splitting and joining again gives back the original text. */
  lemma {:induction false} JoinSplit(s: string, sep: string)
    requires |sep| > 0
    ensures Join(Split(s, sep), sep) == s
    decreases |s|
  {
    if |s| < |sep| {
    } else if s[..|sep|] == sep {
      var rest := Split(s[|sep|..], sep);
      JoinSplit(s[|sep|..], sep);
      assert Split(s, sep) == [""] + rest;
      assert ([""] + rest)[1..] == rest;
      assert Join([""] + rest, sep) == "" + sep + Join(rest, sep);
      assert s == "" + sep + s[|sep|..];
    } else {
      var rest := Split(s[1..], sep);
      JoinSplit(s[1..], sep);
      JoinFront(s[0], rest, sep);
      assert Split(s, sep) == [[s[0]] + rest[0]] + rest[1..];
      assert s == [s[0]] + s[1..];
    }
  }

  /** Gluing a character to the front of the first piece glues it to the front of the joined text. */
  lemma JoinFront(c: char, pieces: seq<string>, sep: string)
    requires |pieces| >= 1
    ensures Join([[c] + pieces[0]] + pieces[1..], sep) == [c] + Join(pieces, sep)
  {
    var glued := [[c] + pieces[0]] + pieces[1..];
    if |pieces| > 1 {
      assert glued[1..] == pieces[1..];
      assert Join(glued, sep) == ([c] + pieces[0]) + sep + Join(pieces[1..], sep);
    }
  }

  /**
   * Splitting a text whose head holds no first character of the separator
   * cuts exactly after the head.
   */
  lemma {:induction false} SplitAtFirst(head: string, sep: string, tail: string)
    requires |sep| > 0 && sep[0] !in head
    ensures Split(head + sep + tail, sep) == [head] + Split(tail, sep)
    decreases |head|
  {
    var s := head + sep + tail;
    if head == [] {
      assert s[..|sep|] == sep;
      assert s[|sep|..] == tail;
    } else {
      assert s[0] == head[0] && head[0] in head;
      assert s[..|sep|][0] != sep[0];
      assert s[1..] == head[1..] + sep + tail;
      SplitAtFirst(head[1..], sep, tail);
      assert [s[0]] + head[1..] == head;
    }
  }

  /** A text without the separator's first character splits into itself. */
  lemma {:induction false} SplitNone(s: string, sep: string)
    requires |sep| > 0 && sep[0] !in s
    ensures Split(s, sep) == [s]
    decreases |s|
  {
    if |s| >= |sep| {
      assert s[0] in s;
      assert s[..|sep|][0] != sep[0];
      SplitNone(s[1..], sep);
      assert [s[0]] + s[1..] == s;
    }
  }

  /** Joining pieces that hold no first character of the separator and splitting again gives back the pieces. */
  lemma {:induction false} SplitJoin(pieces: seq<string>, sep: string)
    requires |pieces| >= 1 && |sep| > 0
    requires forall k :: 0 <= k < |pieces| ==> sep[0] !in pieces[k]
    ensures Split(Join(pieces, sep), sep) == pieces
    decreases |pieces|
  {
    if |pieces| == 1 {
      SplitNone(pieces[0], sep);
    } else {
      SplitJoin(pieces[1..], sep);
      SplitAtFirst(pieces[0], sep, Join(pieces[1..], sep));
      assert [pieces[0]] + pieces[1..] == pieces;
    }
  }

  /** `s.replace(c, "")` for a one-character pattern: drops the first occurrence of `c`. */
  function RemoveFirst(s: string, c: char): (r: string)
    ensures c !in s ==> r == s
    ensures |r| == if c in s then |s| - 1 else |s|
  {
    if s == [] then []
    else if s[0] == c then s[1..]
    else
      assert c in s <==> c in s[1..];
      [s[0]] + RemoveFirst(s[1..], c)
  }

  /** It is the FIRST occurrence that goes: what precedes it is kept, and so is what follows. */
  lemma {:induction false} RemoveFirstOccurrence(head: string, c: char, tail: string)
    requires c !in head
    ensures RemoveFirst(head + [c] + tail, c) == head + tail
    decreases |head|
  {
    if head == [] {
      assert head + [c] + tail == [c] + tail;
      assert ([c] + tail)[1..] == tail;
    } else {
      var x, rest := head[0], head[1..];
      calc {
        RemoveFirst(head + [c] + tail, c);
      == { assert head + [c] + tail == [x] + (rest + [c] + tail); }
        RemoveFirst([x] + (rest + [c] + tail), c);
      == { assert x == head[0] && head[0] in head; RemoveFirstPast(x, rest + [c] + tail, c); }
        [x] + RemoveFirst(rest + [c] + tail, c);
      == { assert c !in rest by {
             forall k | 0 <= k < |rest| ensures rest[k] != c {
               assert rest[k] == head[k + 1];
             }
           }
           RemoveFirstOccurrence(rest, c, tail); }
        [x] + (rest + tail);
      == { assert head == [x] + rest; }
        head + tail;
      }
    }
  }

  /** A first character other than the one removed stays in front. */
  lemma RemoveFirstPast(x: char, rest: string, c: char)
    requires x != c
    ensures RemoveFirst([x] + rest, c) == [x] + RemoveFirst(rest, c)
  {
    assert ([x] + rest)[0] == x && ([x] + rest)[1..] == rest;
  }

  /** `lines.filter(el => el.length > 0)`: the non-empty lines, in order. */
  function NonEmpty(lines: seq<string>): (r: seq<string>)
    ensures |r| <= |lines|
  {
    if lines == [] then []
    else if |lines[0]| > 0 then [lines[0]] + NonEmpty(lines[1..])
    else NonEmpty(lines[1..])
  }

  /** The filter keeps every non-empty line as often as it occurs, and nothing else. */
  lemma {:induction false} NonEmptyCounts(lines: seq<string>)
    ensures forall l :: l in NonEmpty(lines) <==> l in lines && |l| > 0
    ensures forall l :: multiset(NonEmpty(lines))[l] == if |l| > 0 then multiset(lines)[l] else 0
    decreases |lines|
  {
    if lines != [] {
      assert lines == [lines[0]] + lines[1..];
      NonEmptyCounts(lines[1..]);
    }
  }

  /** The filter keeps the order of the lines: it works on each part of a list separately. */
  lemma {:induction false} NonEmptyAppend(a: seq<string>, b: seq<string>)
    ensures NonEmpty(a + b) == NonEmpty(a) + NonEmpty(b)
    decreases |a|
  {
    if a == [] {
      assert a + b == b;
    } else {
      var x := a[0];
      assert (a + b)[0] == x && (a + b)[1..] == a[1..] + b;
      NonEmptyAppend(a[1..], b);
      if |x| > 0 {
        assert NonEmpty(a + b) == [x] + NonEmpty(a[1..] + b);
        assert NonEmpty(a) == [x] + NonEmpty(a[1..]);
      } else {
        assert NonEmpty(a + b) == NonEmpty(a[1..] + b);
        assert NonEmpty(a) == NonEmpty(a[1..]);
      }
    }
  }

  /** A single line is kept exactly when it is not empty. */
  lemma NonEmptyOne(l: string)
    ensures NonEmpty([l]) == if |l| > 0 then [l] else []
  {
    assert [l][1..] == [];
  }

  predicate IsDigit(c: char) {
    '0' <= c <= '9'
  }

  predicate IsDigits(s: string) {
    forall i :: 0 <= i < |s| ==> IsDigit(s[i])
  }

  /** The number a string of decimal digits denotes, most significant digit first. */
  function DecimalValue(s: string): nat
    requires IsDigits(s)
  {
    if s == [] then 0 else DecimalValue(s[..|s| - 1]) * 10 + (s[|s| - 1] as int - '0' as int)
  }

  /** The size token of a listing line as a number: present exactly for a non-empty run of decimal digits. */
  function ParseDecimal(token: string): (r: Option<nat>)
    ensures r.Some? <==> |token| > 0 && IsDigits(token)
    ensures r.Some? ==> r.value == DecimalValue(token)
    ensures r.Some? && (|token| == 1 || token[0] != '0') ==> Decimal(r.value) == token
  {
    if |token| > 0 && IsDigits(token) then
      DecimalOfDecimalValue(token);
      Some(DecimalValue(token))
    else None
  }

  /** The decimal rendering of `n`, as a listing line shows a file size. */
  function Decimal(n: nat): (s: string)
    ensures |s| > 0 && IsDigits(s)
  {
    if n < 10 then ['0' + (n as char)]
    else Decimal(n / 10) + ['0' + ((n % 10) as char)]
  }

  /** Parsing the rendering of a size gives the size back. */
  lemma {:induction false} ParseDecimalOfDecimal(n: nat)
    ensures ParseDecimal(Decimal(n)) == Some(n)
  {
    DecimalValueOfDecimal(n);
  }

  lemma {:induction false} DecimalValueOfDecimal(n: nat)
    ensures DecimalValue(Decimal(n)) == n
    decreases n
  {
    var s := Decimal(n);
    if n >= 10 {
      DecimalValueOfDecimal(n / 10);
      assert s[..|s| - 1] == Decimal(n / 10);
    }
  }

  /** A digit string without a leading zero is the rendering of the number it denotes. */
  lemma {:induction false} DecimalOfDecimalValue(s: string)
    requires |s| > 0 && IsDigits(s)
    ensures |s| == 1 || s[0] != '0' ==> Decimal(DecimalValue(s)) == s
    decreases |s|
  {
    var n := DecimalValue(s);
    if |s| == 1 {
      assert s[..|s| - 1] == [] && s[|s| - 1] == s[0];
      assert DecimalValue(s[..|s| - 1]) == 0;
      assert n == s[0] as int - '0' as int;
      assert Decimal(n) == ['0' + (n as char)];
    } else if s[0] != '0' {
      var p, last := s[..|s| - 1], s[|s| - 1];
      assert p[0] == s[0];
      assert IsDigits(p) by {
        forall i | 0 <= i < |p| ensures IsDigit(p[i]) {
          assert p[i] == s[i];
        }
      }
      DecimalLeadingNonZero(p);
      assert n == DecimalValue(p) * 10 + (last as int - '0' as int);
      assert n >= 10 && n / 10 == DecimalValue(p) && n % 10 == last as int - '0' as int;
      DecimalOfDecimalValue(p);
      assert '0' + ((n % 10) as char) == last;
      assert Decimal(n) == Decimal(n / 10) + ['0' + ((n % 10) as char)];
      assert Decimal(n) == p + [last];
      assert s == p + [last];
    }
  }

  /** A digit string whose first digit is not zero denotes a positive number. */
  lemma {:induction false} DecimalLeadingNonZero(s: string)
    requires |s| > 0 && IsDigits(s) && s[0] != '0'
    ensures DecimalValue(s) >= 1
    decreases |s|
  {
    if |s| == 1 {
      assert s[..0] == [];
    } else {
      var p := s[..|s| - 1];
      assert p[0] == s[0];
      assert IsDigits(p) by {
        forall i | 0 <= i < |p| ensures IsDigit(p[i]) {
          assert p[i] == s[i];
        }
      }
      DecimalLeadingNonZero(p);
    }
  }
}
