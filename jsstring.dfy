/**
 * The pieces of JavaScript string semantics the application relies on:
 * `String.prototype.trim` and the `\s` class, the ASCII `\d` class,
 * `parseInt(s, 10)` on a string of digits, `String(n)` for integers,
 * `padStart(2, "0")`, `toLowerCase`, `includes`, `startsWith`, `join`
 * and the `split(/\s+/).filter(Boolean)` tokenisation.
 */
module JsString {
  import opened Options

  // ---------------------------------------------------------------- digits

  /** The regex class `\d` (ASCII digits only, no `u` flag). */
  predicate IsDigit(c: char) { '0' <= c <= '9' }

  predicate AllDigits(s: string) { forall i :: 0 <= i < |s| ==> IsDigit(s[i]) }

  function DigitValue(c: char): (n: nat)
    requires IsDigit(c)
    ensures n < 10
  {
    (c as int) - ('0' as int)
  }

  function DigitChar(n: nat): (c: char)
    requires n < 10
    ensures IsDigit(c) && DigitValue(c) == n
  {
    (('0' as int) + n) as char
  }

  function Pow10(k: nat): (p: nat)
    ensures p >= 1
  {
    if k == 0 then 1 else 10 * Pow10(k - 1)
  }

  /** `parseInt(s, 10)` (and `Number(s)`) on a non-empty string of ASCII digits. */
  function DigitsValue(s: string): (n: nat)
    requires AllDigits(s)
    ensures n < Pow10(|s|)
  {
    if s == [] then 0 else DigitsValue(s[..|s| - 1]) * 10 + DigitValue(s[|s| - 1])
  }

  lemma DigitsValue2(s: string)
    requires |s| == 2 && AllDigits(s)
    ensures DigitsValue(s) == 10 * DigitValue(s[0]) + DigitValue(s[1])
  {
    assert s[..1][..0] == [];
  }

  lemma DigitsValue4(s: string)
    requires |s| == 4 && AllDigits(s)
    ensures DigitsValue(s) == 1000 * DigitValue(s[0]) + 100 * DigitValue(s[1]) + 10 * DigitValue(s[2]) + DigitValue(s[3])
  {
    var p3, p2 := s[..3], s[..2];
    assert DigitsValue(s) == DigitsValue(p3) * 10 + DigitValue(s[3]);
    assert p3[..2] == p2;
    assert DigitsValue(p3) == DigitsValue(p2) * 10 + DigitValue(s[2]);
    DigitsValue2(p2);
  }

  // ---------------------------------------------------------- number text

  /** `String(n)` for a non-negative integer: its shortest decimal form. */
  function NatToString(n: nat): (s: string)
    ensures |s| >= 1 && AllDigits(s)
    decreases n
  {
    if n < 10 then [DigitChar(n)] else NatToString(n / 10) + [DigitChar(n % 10)]
  }

  /** `String(n)` for any integer. */
  function IntToString(n: int): string
  {
    if n >= 0 then NatToString(n) else "-" + NatToString(-n)
  }

  lemma {:induction false} NatToStringValue(n: nat)
    ensures DigitsValue(NatToString(n)) == n
    decreases n
  {
    if n >= 10 {
      NatToStringValue(n / 10);
      var s := NatToString(n);
      assert s[..|s| - 1] == NatToString(n / 10);
    }
  }

  lemma {:induction false} NatToStringLength(n: nat)
    ensures n < 10 ==> |NatToString(n)| == 1
    ensures 10 <= n < 100 ==> |NatToString(n)| == 2
    ensures 100 <= n < 1000 ==> |NatToString(n)| == 3
    ensures 1000 <= n < 10000 ==> |NatToString(n)| == 4
    decreases n
  {
    if n >= 10 { NatToStringLength(n / 10); }
  }

  lemma NatToStringInjective(a: nat, b: nat)
    requires NatToString(a) == NatToString(b)
    ensures a == b
  {
    NatToStringValue(a);
    NatToStringValue(b);
  }

  /** Reads back the text `IntToString` writes. */
  function ReadInt(s: string): int
  {
    if s != [] && s[0] == '-' && AllDigits(s[1..]) then 0 - DigitsValue(s[1..]) as int
    else if AllDigits(s) then DigitsValue(s)
    else 0
  }

  lemma IntToStringValue(n: int)
    ensures ReadInt(IntToString(n)) == n
  {
    NatToStringValue(if n >= 0 then n else -n);
    if n < 0 {
      assert IntToString(n)[1..] == NatToString(-n);
    }
  }

  lemma IntToStringInjective(a: int, b: int)
    requires IntToString(a) == IntToString(b)
    ensures a == b
  {
    IntToStringValue(a);
    IntToStringValue(b);
  }

  /** The decimal form of a four-digit number, read back, is that number. */
  lemma FourDigitYear(n: int)
    requires 1000 <= n <= 9999
    ensures |IntToString(n)| == 4 && AllDigits(IntToString(n))
    ensures DigitsValue(IntToString(n)) == n
  {
    NatToStringLength(n);
    NatToStringValue(n);
  }

  /** Digits with a non-zero first digit have a positive value. */
  lemma {:induction false} DigitsValuePositive(s: string)
    requires s != [] && AllDigits(s) && s[0] != '0'
    ensures DigitsValue(s) >= 1
  {
    if |s| > 1 {
      DigitsValuePositive(s[..|s| - 1]);
    }
  }

  /** Digits without a leading zero are the decimal form of their value:
      `String(Number(s)) == s`. */
  lemma {:induction false} NatToStringOfDigits(s: string)
    requires s != [] && AllDigits(s) && (s[0] != '0' || |s| == 1)
    ensures NatToString(DigitsValue(s)) == s
  {
    var n := DigitsValue(s);
    if |s| == 1 {
      assert s[..0] == [];
      assert n == DigitValue(s[0]);
    } else {
      var p := s[..|s| - 1];
      DigitsValuePositive(p);
      NatToStringOfDigits(p);
      assert n / 10 == DigitsValue(p) && n % 10 == DigitValue(s[|s| - 1]);
      assert s == p + [s[|s| - 1]];
    }
  }

  /** `String(n).padStart(2, "0")`. */
  function Pad2(n: int): (s: string)
    ensures |s| >= 2
  {
    var t := IntToString(n);
    if |t| >= 2 then t else "0" + t
  }

  lemma Pad2Small(n: int)
    requires 0 <= n < 100
    ensures |Pad2(n)| == 2 && AllDigits(Pad2(n))
    ensures DigitsValue(Pad2(n)) == n
    ensures Pad2(n)[0] == DigitChar(n / 10) && Pad2(n)[1] == DigitChar(n % 10)
  {
    NatToStringLength(n);
    if n >= 10 {
      assert NatToString(n / 10) == [DigitChar(n / 10)];
    }
    DigitsValue2(Pad2(n));
  }

  /** Two digits padded back from their value are those digits. */
  lemma Pad2OfDigits(s: string)
    requires |s| == 2 && AllDigits(s)
    ensures DigitsValue(s) < 100 && Pad2(DigitsValue(s)) == s
  {
    var n := DigitsValue(s);
    DigitsValue2(s);
    Pad2Small(n);
    assert n / 10 == DigitValue(s[0]) && n % 10 == DigitValue(s[1]);
    assert DigitChar(DigitValue(s[0])) == s[0] && DigitChar(DigitValue(s[1])) == s[1];
  }

  lemma Pad2Injective(a: int, b: int)
    requires 0 <= a < 100 && 0 <= b < 100
    requires Pad2(a) == Pad2(b)
    ensures a == b
  {
    Pad2Small(a);
    Pad2Small(b);
  }

  // ------------------------------------------------------------ whitespace

  /** The characters `String.prototype.trim` removes and `\s` matches
      (WhiteSpace and LineTerminator of ECMA-262). */
  const SpaceChars: set<char> := {
    '\t', '\n', '\U{000B}', '\U{000C}', '\r', ' ', '\U{00A0}', '\U{1680}',
    '\U{2000}', '\U{2001}', '\U{2002}', '\U{2003}', '\U{2004}', '\U{2005}',
    '\U{2006}', '\U{2007}', '\U{2008}', '\U{2009}', '\U{200A}',
    '\U{2028}', '\U{2029}', '\U{202F}', '\U{205F}', '\U{3000}', '\U{FEFF}'
  }

  predicate IsSpace(c: char)
  {
    c in SpaceChars
  }

  predicate AllSpace(s: string) { forall i :: 0 <= i < |s| ==> IsSpace(s[i]) }

  /** No whitespace at either end: the shape `trim` produces. */
  predicate Trimmed(s: string)
  {
    s == [] || (!IsSpace(s[0]) && !IsSpace(s[|s| - 1]))
  }

  function TrimStart(s: string): (r: string)
    ensures |r| <= |s| && r == s[|s| - |r|..]
    ensures AllSpace(s[..|s| - |r|])
    ensures r == [] || !IsSpace(r[0])
  {
    if s != [] && IsSpace(s[0]) then
      var r := TrimStart(s[1..]);
      forall k | 0 < k < |s| - |r| ensures IsSpace(s[k]) {
        assert s[k] == s[1..][..|s| - 1 - |r|][k - 1];
      }
      r
    else s
  }

  function TrimEnd(s: string): (r: string)
    ensures |r| <= |s| && r == s[..|r|]
    ensures AllSpace(s[|r|..])
    ensures r == [] || !IsSpace(r[|r| - 1])
  {
    if s != [] && IsSpace(s[|s| - 1]) then
      var r := TrimEnd(s[..|s| - 1]);
      assert s[|r|..] == s[..|s| - 1][|r|..] + [s[|s| - 1]];
      r
    else s
  }

  /** `s.trim()`: `s` with its leading and trailing whitespace removed. */
  function Trim(s: string): (r: string)
    ensures Trimmed(r)
    ensures |r| <= |s|
  {
    var a := TrimStart(s);
    var r := TrimEnd(a);
    assert Trimmed(r) by {
      if r != [] {
        assert r[0] == a[0];
      }
    }
    r
  }

  /** `r` is a slice of `s` with nothing but whitespace before and after it. */
  predicate WhitespaceAround(s: string, r: string)
  {
    exists i :: 0 <= i <= |s| - |r| && r == s[i..i + |r|] && AllSpace(s[..i]) && AllSpace(s[i + |r|..])
  }

  /** `trim` keeps a slice of the text and cuts only whitespace off before
      and after it. */
  lemma TrimIsSlice(s: string)
    ensures WhitespaceAround(s, Trim(s))
  {
    var a := TrimStart(s);
    TrimSlice(s, a, TrimEnd(a));
  }

  lemma TrimSlice(s: string, a: string, r: string)
    requires |a| <= |s| && a == s[|s| - |a|..] && AllSpace(s[..|s| - |a|])
    requires |r| <= |a| && r == a[..|r|] && AllSpace(a[|r|..])
    ensures WhitespaceAround(s, r)
  {
    var i := |s| - |a|;
    assert r == s[i..i + |r|];
    assert s[i + |r|..] == a[|r|..];
    assert AllSpace(s[..i]) && AllSpace(s[i + |r|..]);
  }

  /** `trim` only removes characters. */
  lemma TrimKeepsChars(s: string)
    ensures forall c :: c in Trim(s) ==> c in s
  {
    var a := TrimStart(s);
    var r := Trim(s);
    forall c | c in r ensures c in s {
      var i :| 0 <= i < |r| && r[i] == c;
      assert r[i] == a[i] == s[|s| - |a| + i];
    }
  }

  lemma TrimOfTrimmed(s: string)
    requires Trimmed(s)
    ensures Trim(s) == s
  {
  }

  lemma DigitNotSpace(c: char)
    requires IsDigit(c)
    ensures !IsSpace(c)
  {
  }

  /** Text that starts and ends with a digit is left alone by `trim`. */
  lemma DigitEndsTrimmed(s: string)
    requires s != [] && IsDigit(s[0]) && IsDigit(s[|s| - 1])
    ensures Trimmed(s) && Trim(s) == s
  {
    DigitNotSpace(s[0]);
    DigitNotSpace(s[|s| - 1]);
    TrimOfTrimmed(s);
  }

  /** A leading space changes nothing after trimming. */
  lemma TrimLeadingSpace(c: char, s: string)
    requires IsSpace(c)
    ensures Trim([c] + s) == Trim(s)
  {
    var w := [c] + s;
    assert w[1..] == s;
    assert TrimStart(w) == TrimStart(s);
  }

  lemma TrimEmptyIffAllSpace(s: string)
    ensures Trim(s) == [] <==> AllSpace(s)
  {
    if AllSpace(s) && s != [] {
      assert TrimStart(s) == [] by { AllSpaceTrimStart(s); }
    }
  }

  lemma {:induction false} AllSpaceTrimStart(s: string)
    requires AllSpace(s)
    ensures TrimStart(s) == []
  {
    if s != [] { AllSpaceTrimStart(s[1..]); }
  }

  /** JavaScript truthiness of a `string | null`: present and not `""`. */
  predicate Filled(v: Option<string>)
  {
    v.Some? && v.value != ""
  }

  /** `v ?? ""`. */
  function OrEmpty(v: Option<string>): string
  {
    if v.Some? then v.value else ""
  }

  // ------------------------------------------------------------ lower case

  /** `toLowerCase` on one UTF-16 unit, for ASCII, Latin-1 and Latin
      Extended-A capitals (which include every Czech capital letter). */
  function LowerChar(c: char): (r: char)
  {
    if 'A' <= c <= 'Z' then ((c as int) + 32) as char
    else if '\U{00C0}' <= c <= '\U{00DE}' && c != '\U{00D7}' then ((c as int) + 32) as char
    else if (('\U{0100}' <= c <= '\U{012F}') || ('\U{0132}' <= c <= '\U{0137}') || ('\U{014A}' <= c <= '\U{0177}'))
            && (c as int) % 2 == 0 then ((c as int) + 1) as char
    else if (('\U{0139}' <= c <= '\U{0148}') || ('\U{0179}' <= c <= '\U{017E}')) && (c as int) % 2 == 1
      then ((c as int) + 1) as char
    else if c == '\U{0178}' then '\U{00FF}'
    else c
  }

  lemma LowerCharKeepsSpace(c: char)
    ensures IsSpace(LowerChar(c)) <==> IsSpace(c)
  {
  }

  /** `s.toLowerCase()`. */
  function Lower(s: string): (r: string)
    ensures |r| == |s|
    ensures forall i :: 0 <= i < |s| ==> r[i] == LowerChar(s[i])
  {
    if s == [] then [] else [LowerChar(s[0])] + Lower(s[1..])
  }

  lemma {:induction false} LowerConcat(a: string, b: string)
    ensures Lower(a + b) == Lower(a) + Lower(b)
  {
    assert Lower(a + b) == Lower(a) + Lower(b);
  }

  // ------------------------------------------------------ search and split

  predicate StartsWith(s: string, prefix: string)
  {
    |prefix| <= |s| && s[..|prefix|] == prefix
  }

  /** `hay.includes(needle)`. */
  predicate Includes(hay: string, needle: string)
    decreases |hay|
  {
    StartsWith(hay, needle) || (hay != [] && Includes(hay[1..], needle))
  }

  lemma {:induction false} IncludesIff(hay: string, needle: string)
    ensures Includes(hay, needle) <==> exists i :: 0 <= i <= |hay| && StartsWith(hay[i..], needle)
    decreases |hay|
  {
    if hay == [] {
      assert hay[0..] == hay;
    } else {
      IncludesIff(hay[1..], needle);
      assert hay[0..] == hay;
      if Includes(hay[1..], needle) {
        var j :| 0 <= j <= |hay| - 1 && StartsWith(hay[1..][j..], needle);
        assert hay[1..][j..] == hay[j + 1..];
      }
      if exists i :: 0 <= i <= |hay| && StartsWith(hay[i..], needle) {
        var i :| 0 <= i <= |hay| && StartsWith(hay[i..], needle);
        if i > 0 {
          assert hay[1..][i - 1..] == hay[i..];
          assert Includes(hay[1..], needle);
        }
      }
    }
  }

  /** The run of non-whitespace characters at the start of `s`. */
  function LeadingWord(s: string): (w: string)
    ensures |w| <= |s| && w == s[..|w|]
    ensures forall i :: 0 <= i < |w| ==> !IsSpace(w[i])
    ensures |w| < |s| ==> IsSpace(s[|w|])
  {
    if s == [] || IsSpace(s[0]) then [] else [s[0]] + LeadingWord(s[1..])
  }

  /** `s.split(/\s+/).filter(Boolean)`: the maximal runs of non-whitespace
      characters, in order. */
  function Words(s: string): (ws: seq<string>)
    ensures forall k :: 0 <= k < |ws| ==> ws[k] != [] && forall i :: 0 <= i < |ws[k]| ==> !IsSpace(ws[k][i])
    decreases |s|
  {
    if s == [] then []
    else if IsSpace(s[0]) then Words(s[1..])
    else
      var w := LeadingWord(s);
      [w] + Words(s[|w|..])
  }

  lemma {:induction false} WordsAllSpace(s: string)
    ensures Words(s) == [] <==> AllSpace(s)
    decreases |s|
  {
    if s != [] {
      if IsSpace(s[0]) {
        WordsAllSpace(s[1..]);
        if AllSpace(s[1..]) { assert AllSpace(s); }
      } else {
        assert !AllSpace(s);
      }
    }
  }

  /** Leading whitespace does not change the words. */
  lemma {:induction false} WordsLeadingSpace(a: string, b: string)
    requires AllSpace(a)
    ensures Words(a + b) == Words(b)
    decreases |a|
  {
    if a == [] {
      assert a + b == b;
    } else {
      assert (a + b)[0] == a[0];
      assert (a + b)[1..] == a[1..] + b;
      WordsLeadingSpace(a[1..], b);
    }
  }

  lemma {:induction false} LeadingWordBeforeSpace(b: string, c: string)
    requires c == [] || IsSpace(c[0])
    ensures LeadingWord(b + c) == LeadingWord(b)
    decreases |b|
  {
    if b == [] {
      assert b + c == c;
    } else {
      assert (b + c)[0] == b[0];
      assert (b + c)[1..] == b[1..] + c;
      if !IsSpace(b[0]) {
        LeadingWordBeforeSpace(b[1..], c);
      }
    }
  }

  /** Trailing whitespace does not change the words. */
  lemma {:induction false} WordsTrailingSpace(b: string, c: string)
    requires AllSpace(c)
    ensures Words(b + c) == Words(b)
    decreases |b|
  {
    if b == [] {
      assert b + c == c;
      WordsAllSpace(c);
    } else if IsSpace(b[0]) {
      assert (b + c)[0] == b[0];
      assert (b + c)[1..] == b[1..] + c;
      WordsTrailingSpace(b[1..], c);
    } else {
      assert (b + c)[0] == b[0];
      LeadingWordBeforeSpace(b, c);
      var w := LeadingWord(b);
      assert (b + c)[|w|..] == b[|w|..] + c;
      WordsTrailingSpace(b[|w|..], c);
    }
  }

  lemma LowerAllSpace(s: string)
    requires AllSpace(s)
    ensures AllSpace(Lower(s))
  {
    forall i | 0 <= i < |s| ensures IsSpace(Lower(s)[i]) {
      LowerCharKeepsSpace(s[i]);
    }
  }

  /** Trimming before lower-casing does not change the words of a query:
      `q.trim().toLowerCase().split(/\s+/).filter(Boolean)` equals
      `q.toLowerCase().split(/\s+/).filter(Boolean)`. */
  lemma WordsOfLowerTrim(q: string)
    ensures Words(Lower(Trim(q))) == Words(Lower(q))
  {
    var r := Trim(q);
    var head, tail := TrimPieces(q);
    LowerThree(head, r, tail);
    LowerAllSpace(head);
    LowerAllSpace(tail);
    WordsTrailingSpace(Lower(head) + Lower(r), Lower(tail));
    WordsLeadingSpace(Lower(head), Lower(r));
  }

  /** Dropping leading whitespace keeps the words. */
  lemma WordsTrimStart(s: string)
    ensures Words(TrimStart(s)) == Words(s)
  {
    var head := TrimStartCut(s);
    WordsLeadingSpace(head, TrimStart(s));
  }

  /** Trimming does not change the words. */
  lemma WordsOfTrim(q: string)
    ensures Words(Trim(q)) == Words(q)
  {
    var head, tail := TrimPieces(q);
    WordsTrailingSpace(head + Trim(q), tail);
    WordsLeadingSpace(head, Trim(q));
  }

  /** `trim` cuts white space off both ends and nothing else. */
  lemma TrimPieces(q: string) returns (head: string, tail: string)
    ensures q == head + Trim(q) + tail && AllSpace(head) && AllSpace(tail)
  {
    var a := TrimStart(q);
    var r := TrimEnd(a);
    head := TrimStartCut(q);
    tail := TrimEndCut(a);
    assert r == Trim(q);
    Associative(head, r, tail);
  }

  lemma Associative(a: string, b: string, c: string)
    ensures a + b + c == a + (b + c)
  {
  }

  lemma TrimStartCut(q: string) returns (head: string)
    ensures q == head + TrimStart(q) && AllSpace(head)
  {
    head := q[..|q| - |TrimStart(q)|];
  }

  lemma TrimEndCut(a: string) returns (tail: string)
    ensures a == TrimEnd(a) + tail && AllSpace(tail)
  {
    tail := a[|TrimEnd(a)|..];
  }

  lemma LowerThree(a: string, b: string, c: string)
    ensures Lower(a + b + c) == Lower(a) + Lower(b) + Lower(c)
  {
    LowerConcat(a + b, c);
    LowerConcat(a, b);
  }

  /** `parts.join(sep)`. */
  function Join(parts: seq<string>, sep: string): (r: string)
  {
    if parts == [] then "" else if |parts| == 1 then parts[0] else parts[0] + sep + Join(parts[1..], sep)
  }

  /** `s.replace(c, "")` with a one-character search string: the first
      occurrence of `c`, if any, is removed. */
  function RemoveFirst(s: string, c: char): (r: string)
    ensures c in s ==> |r| == |s| - 1
    ensures c !in s ==> r == s
  {
    if s == [] then s else if s[0] == c then s[1..] else [s[0]] + RemoveFirst(s[1..], c)
  }

  // ------------------------------------------------------- split, parseInt

  /** `s.split(sep)` with a one-character separator: the pieces between the
      separators, empty ones included. */
  function SplitOn(s: string, sep: char): (parts: seq<string>)
    ensures |parts| >= 1
    ensures sep !in s ==> parts == [s]
    ensures forall k :: 0 <= k < |parts| ==> sep !in parts[k]
  {
    if s == [] then [""]
    else
      var rest := SplitOn(s[1..], sep);
      if s[0] == sep then [""] + rest
      else
        assert sep !in s ==> sep !in s[1..] && rest == [s[1..]];
        assert [s[0]] + s[1..] == s;
        [[s[0]] + rest[0]] + rest[1..]
  }

  /** Splitting text made of a separator-free head, the separator, and a
      separator-free tail gives the head and the tail. */
  lemma {:induction false} SplitOnTwo(head: string, sep: char, tail: string)
    requires sep !in head && sep !in tail
    ensures SplitOn(head + [sep] + tail, sep) == [head, tail]
    decreases |head|
  {
    if head == [] {
      assert head + [sep] + tail == [sep] + tail;
      assert ([sep] + tail)[1..] == tail;
    } else {
      SplitOnTwo(head[1..], sep, tail);
      assert (head + [sep] + tail)[1..] == head[1..] + [sep] + tail;
      assert [head[0]] + head[1..] == head;
    }
  }

  /** A separator-free head and the separator split off as the first piece. */
  lemma {:induction false} SplitOnCons(head: string, sep: char, tail: string)
    requires sep !in head
    ensures SplitOn(head + [sep] + tail, sep) == [head] + SplitOn(tail, sep)
    decreases |head|
  {
    if head == [] {
      assert head + [sep] + tail == [sep] + tail;
      assert ([sep] + tail)[1..] == tail;
    } else {
      var s, t := head + [sep] + tail, head[1..] + [sep] + tail;
      assert s[0] == head[0] && s[1..] == t;
      SplitOnCons(head[1..], sep, tail);
      var rest := SplitOn(t, sep);
      assert rest[0] == head[1..] && rest[1..] == SplitOn(tail, sep);
      assert [head[0]] + head[1..] == head;
    }
  }

  /** Splitting joined separator-free pieces gives the pieces back. */
  lemma {:induction false} SplitOfJoin(parts: seq<string>, sep: char)
    requires parts != []
    requires forall k :: 0 <= k < |parts| ==> sep !in parts[k]
    ensures SplitOn(Join(parts, [sep]), sep) == parts
    decreases |parts|
  {
    if |parts| > 1 {
      SplitOfJoin(parts[1..], sep);
      SplitOnCons(parts[0], sep, Join(parts[1..], [sep]));
      assert [parts[0]] + parts[1..] == parts;
    }
  }

  /** The longest run of ASCII digits at the start of `s`. */
  function DigitPrefix(s: string): (d: string)
    ensures |d| <= |s| && d == s[..|d|] && AllDigits(d)
    ensures |d| < |s| ==> !IsDigit(s[|d|])
  {
    if s == [] || !IsDigit(s[0]) then [] else [s[0]] + DigitPrefix(s[1..])
  }

  /** `parseInt(s, 10)`: leading whitespace skipped, an optional sign, then
      the longest run of digits; no digit at all gives `NaN` (here `None`). */
  function ParseIntText(s: string): (r: Option<int>)
  {
    var t := TrimStart(s);
    var negative := t != [] && t[0] == '-';
    var body := if t != [] && (t[0] == '-' || t[0] == '+') then t[1..] else t;
    var d := DigitPrefix(body);
    if d == [] then None else Some(if negative then 0 - DigitsValue(d) else DigitsValue(d))
  }

  /** On a non-empty string of digits `parseInt` is the digits' value. */
  lemma ParseIntOfDigits(s: string)
    requires s != [] && AllDigits(s)
    ensures ParseIntText(s) == Some(DigitsValue(s) as int)
  {
    DigitNotSpace(s[0]);
    assert TrimStart(s) == s;
    DigitPrefixOfDigits(s);
  }

  lemma {:induction false} DigitPrefixOfDigits(s: string)
    requires AllDigits(s)
    ensures DigitPrefix(s) == s
  {
    if s != [] {
      DigitPrefixOfDigits(s[1..]);
    }
  }
}
