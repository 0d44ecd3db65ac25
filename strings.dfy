/** The few Python `str` operations the core relies on: `isspace`, `strip`,
    `split`/`join` with a literal separator, ASCII case folding, decimal
    digits and code-point ordering of strings. */
module Strings {

  /** Python's `str.isspace()`: the Unicode white-space characters. */
  predicate IsSpace(c: char)
  {
    var n := c as int;
    (0x09 <= n <= 0x0D) || (0x1C <= n <= 0x20) || n == 0x85 || n == 0xA0 || n == 0x1680
    || (0x2000 <= n <= 0x200A) || n == 0x2028 || n == 0x2029 || n == 0x202F
    || n == 0x205F || n == 0x3000
  }

  /** Every character is white space (the empty string included). */
  predicate IsBlank(s: string)
  {
    forall k | 0 <= k < |s| :: IsSpace(s[k])
  }

  function TrimStart(s: string): (r: string)
    ensures |r| <= |s| && r == s[|s| - |r|..]
  {
    if s != [] && IsSpace(s[0]) then TrimStart(s[1..]) else s
  }

  lemma {:induction false} TrimStartHead(s: string)
    ensures TrimStart(s) == [] || !IsSpace(TrimStart(s)[0])
    decreases |s|
  {
    if s != [] && IsSpace(s[0]) {
      TrimStartHead(s[1..]);
    }
  }

  lemma {:induction false} TrimStartSkipped(s: string)
    ensures forall k | 0 <= k < |s| - |TrimStart(s)| :: IsSpace(s[k])
    decreases |s|
  {
    if s != [] && IsSpace(s[0]) {
      TrimStartSkipped(s[1..]);
    }
  }

  function TrimEnd(s: string): (r: string)
    ensures |r| <= |s| && r == s[..|r|]
  {
    if s != [] && IsSpace(s[|s| - 1]) then TrimEnd(s[..|s| - 1]) else s
  }

  lemma {:induction false} TrimEndHead(s: string)
    ensures TrimEnd(s) == [] || !IsSpace(TrimEnd(s)[|TrimEnd(s)| - 1])
    decreases |s|
  {
    if s != [] && IsSpace(s[|s| - 1]) {
      TrimEndHead(s[..|s| - 1]);
    }
  }

  lemma {:induction false} TrimEndSkipped(s: string)
    ensures forall k | |TrimEnd(s)| <= k < |s| :: IsSpace(s[k])
    decreases |s|
  {
    if s != [] && IsSpace(s[|s| - 1]) {
      TrimEndSkipped(s[..|s| - 1]);
    }
  }

  /** Python's `s.strip()`: the white space at both ends removed. */
  function Strip(s: string): (r: string)
    ensures |r| <= |s|
  {
    TrimEnd(TrimStart(s))
  }

  /** A string without white space at either end. */
  predicate Clean(o: string)
  {
    o != [] && !IsSpace(o[0]) && !IsSpace(o[|o| - 1])
  }

  /** The result of `strip()` is empty exactly when the input is blank, and
      otherwise has no white space at either end. */
  lemma StripSpec(s: string)
    ensures Strip(s) == [] <==> IsBlank(s)
    ensures Strip(s) != [] ==> Clean(Strip(s))
  {
    if TrimEnd(TrimStart(s)) == [] {
      StripEmpty(s);
    } else {
      StripNonEmpty(s);
    }
  }

  lemma StripEmpty(s: string)
    requires TrimEnd(TrimStart(s)) == []
    ensures IsBlank(s)
  {
    var t := TrimStart(s);
    TrimStartHead(s);
    TrimStartSkipped(s);
    TrimEndSkipped(t);
    assert t == [];
  }

  lemma StripNonEmpty(s: string)
    requires TrimEnd(TrimStart(s)) != []
    ensures !IsBlank(s) && Clean(TrimEnd(TrimStart(s)))
  {
    var t := TrimStart(s);
    var r := TrimEnd(t);
    TrimStartHead(s);
    TrimEndHead(t);
    assert r[0] == t[0] == s[|s| - |t|];
  }

  /** Stripping only removes characters. */
  lemma StripWithin(s: string, c: char)
    requires c !in s
    ensures c !in Strip(s)
  {
    var t := TrimStart(s);
    assert t == s[|s| - |t|..];
    assert Strip(s) == TrimEnd(t) == t[..|Strip(s)|];
  }

  /** Python's `s.split(sep)` for a non-empty literal separator: scans left to
      right and cuts at every non-overlapping occurrence of `sep`. */
  function Split(s: string, sep: string): (r: seq<string>)
    requires sep != []
    ensures r != []
    decreases |s|
  {
    if |s| < |sep| then [s]
    else if s[..|sep|] == sep then [""] + Split(s[|sep|..], sep)
    else
      var rest := Split(s[1..], sep);
      [[s[0]] + rest[0]] + rest[1..]
  }

  /** Python's `sep.join(xs)`. */
  function Join(xs: seq<string>, sep: string): string
  {
    if xs == [] then "" else if |xs| == 1 then xs[0] else xs[0] + sep + Join(xs[1..], sep)
  }

  /** Joining the pieces of a split with the same separator gives back the input. */
  lemma {:induction false} JoinSplit(s: string, sep: string)
    requires sep != []
    ensures Join(Split(s, sep), sep) == s
    decreases |s|
  {
    if |s| < |sep| {
    } else if s[..|sep|] == sep {
      JoinSplit(s[|sep|..], sep);
      assert s == sep + s[|sep|..];
    } else {
      var rest := Split(s[1..], sep);
      assert Split(s, sep) == [[s[0]] + rest[0]] + rest[1..];
      JoinSplit(s[1..], sep);
      JoinConsChar(s[0], rest, sep);
      assert s == [s[0]] + s[1..];
    }
  }

  /** Putting a character in front of the first piece puts it in front of the join. */
  lemma JoinConsChar(c: char, rest: seq<string>, sep: string)
    requires rest != []
    ensures Join([[c] + rest[0]] + rest[1..], sep) == [c] + Join(rest, sep)
  {
    var pieces := [[c] + rest[0]] + rest[1..];
    assert pieces[0] == [c] + rest[0] && pieces[1..] == rest[1..];
    if |rest| > 1 {
      assert Join(rest, sep) == rest[0] + sep + Join(rest[1..], sep);
      assert Join(pieces, sep) == pieces[0] + sep + Join(pieces[1..], sep);
    } else {
      assert pieces == [[c] + rest[0]];
    }
  }

  /** The first piece starts the joined string. */
  lemma JoinFirst(xs: seq<string>, sep: string)
    requires xs != []
    ensures |Join(xs, sep)| >= |xs[0]|
  {
  }

  /** A string that does not contain the separator's first character is one piece. */
  lemma {:induction false} SplitWithoutSeparator(a: string, sep: string)
    requires sep != [] && sep[0] !in a
    ensures Split(a, sep) == [a]
    decreases |a|
  {
    if |a| >= |sep| {
      assert a[..|sep|][0] == a[0];
      SplitWithoutSeparator(a[1..], sep);
      assert [a[0]] + a[1..] == a;
    }
  }

  /** Cutting `a + sep + b` gives `a` first when `a` cannot hold the separator. */
  lemma {:induction false} SplitAfterPiece(a: string, sep: string, b: string)
    requires sep != [] && sep[0] !in a
    ensures Split(a + sep + b, sep) == [a] + Split(b, sep)
    decreases |a|
  {
    var s := a + sep + b;
    if a == [] {
      assert s == sep + b;
      assert s[..|sep|] == sep && s[|sep|..] == b;
    } else {
      assert s[..|sep|][0] == a[0];
      assert s[1..] == a[1..] + sep + b;
      SplitAfterPiece(a[1..], sep, b);
      assert [a[0]] + a[1..] == a;
    }
  }

  /** Splitting a join gives back the pieces when no piece holds the separator's
      first character. */
  lemma {:induction false} SplitJoin(xs: seq<string>, sep: string)
    requires sep != [] && xs != []
    requires forall k | 0 <= k < |xs| :: sep[0] !in xs[k]
    ensures Split(Join(xs, sep), sep) == xs
    decreases |xs|
  {
    if |xs| == 1 {
      SplitWithoutSeparator(xs[0], sep);
    } else {
      SplitJoin(xs[1..], sep);
      SplitAfterPiece(xs[0], sep, Join(xs[1..], sep));
    }
  }

  function CountChar(s: string, c: char): nat
  {
    if s == [] then 0 else (if s[0] == c then 1 else 0) + CountChar(s[1..], c)
  }

  /** Splitting on one character gives one piece more than it has occurrences. */
  lemma {:induction false} SplitCharCount(s: string, c: char)
    ensures |Split(s, [c])| == CountChar(s, c) + 1
    decreases |s|
  {
    if s != [] {
      SplitCharCount(s[1..], c);
      if s[0] == c {
        assert s[..1] == [c];
      } else {
        assert s[..1] != [c];
      }
    }
  }

  /** No piece of a split on one character contains that character. */
  lemma {:induction false} SplitCharPieces(s: string, c: char)
    ensures forall k | 0 <= k < |Split(s, [c])| :: c !in Split(s, [c])[k]
    decreases |s|
  {
    if s != [] {
      SplitCharPieces(s[1..], c);
      if s[0] == c {
        assert s[..1] == [c];
      } else {
        assert s[..1] != [c];
        var rest := Split(s[1..], [c]);
        assert Split(s, [c])[0] == [s[0]] + rest[0];
      }
    }
  }

  /** The first piece of a split on one character is the text before the
      character's first occurrence. */
  lemma {:induction false} SplitCharFirst(s: string, c: char)
    ensures StartsWith(s, Split(s, [c])[0]) && c !in Split(s, [c])[0]
    ensures |Split(s, [c])[0]| < |s| ==> s[|Split(s, [c])[0]|] == c
    decreases |s|
  {
    if s != [] {
      SplitCharFirst(s[1..], c);
      if s[0] == c {
        SplitCharHeadSep(c, s[1..]);
        assert [c] + s[1..] == s;
      } else {
        SplitCharHeadOther(s[0], c, s[1..]);
        assert [s[0]] + s[1..] == s;
      }
    }
  }

  /** A split on one character that starts with that character. */
  lemma SplitCharHeadSep(c: char, t: string)
    ensures Split([c] + t, [c]) == [""] + Split(t, [c])
  {
    var s := [c] + t;
    assert s[..1] == [c] && s[1..] == t;
  }

  /** A split on one character that starts with another character. */
  lemma SplitCharHeadOther(x: char, c: char, t: string)
    requires x != c
    ensures Split([x] + t, [c]) == [[x] + Split(t, [c])[0]] + Split(t, [c])[1..]
  {
    var s := [x] + t;
    assert s[..1] != [c] by {
      assert s[..1][0] == x;
    }
    assert s[1..] == t;
  }

  lemma MergeFirstPiece(p: string, x: seq<string>, f: seq<string>, b: seq<string>)
    requires x == f + b && f != []
    ensures [p + x[0]] + x[1..] == ([p + f[0]] + f[1..]) + b
  {
    assert x[0] == f[0] && x[1..] == f[1..] + b;
  }

  /** Splitting on one character distributes over a concatenation around it. */
  lemma {:induction false} SplitCharConcat(a: string, c: char, b: string)
    ensures Split(a + [c] + b, [c]) == Split(a, [c]) + Split(b, [c])
    decreases |a|
  {
    if a == [] {
      assert a + [c] + b == [c] + b;
      SplitCharHeadSep(c, b);
    } else {
      var t := a[1..] + [c] + b;
      assert a + [c] + b == [a[0]] + t;
      assert a == [a[0]] + a[1..];
      SplitCharConcat(a[1..], c, b);
      var whole := Split(t, [c]);
      var front := Split(a[1..], [c]);
      var back := Split(b, [c]);
      if a[0] == c {
        SplitCharHeadSep(c, t);
        SplitCharHeadSep(c, a[1..]);
        assert [""] + whole == ([""] + front) + back;
      } else {
        SplitCharHeadOther(a[0], c, t);
        SplitCharHeadOther(a[0], c, a[1..]);
        MergeFirstPiece([a[0]], whole, front, back);
      }
    }
  }

  // `[x.strip() for x in xs if x.strip()]`

  /** One piece, stripped, or nothing when it is blank. */
  function KeepOne(piece: string): (r: seq<string>)
    ensures |r| <= 1
  {
    if Strip(piece) != [] then [Strip(piece)] else []
  }

  /** The stripped pieces that are not empty, in order. */
  function KeepStripped(pieces: seq<string>): (r: seq<string>)
    ensures |r| <= |pieces|
  {
    if pieces == [] then [] else KeepOne(pieces[0]) + KeepStripped(pieces[1..])
  }

  lemma {:induction false} KeepStrippedAppend(a: seq<string>, b: seq<string>)
    ensures KeepStripped(a + b) == KeepStripped(a) + KeepStripped(b)
    decreases |a|
  {
    if a == [] {
      assert a + b == b;
    } else {
      var head := KeepOne(a[0]);
      assert (a + b)[0] == a[0] && (a + b)[1..] == a[1..] + b;
      calc {
        KeepStripped(a + b);
        head + KeepStripped(a[1..] + b);
        { KeepStrippedAppend(a[1..], b); }
        head + (KeepStripped(a[1..]) + KeepStripped(b));
        (head + KeepStripped(a[1..])) + KeepStripped(b);
        KeepStripped(a) + KeepStripped(b);
      }
    }
  }

  lemma KeepStrippedSnoc(pieces: seq<string>, piece: string)
    ensures KeepStripped(pieces + [piece]) == KeepStripped(pieces) + KeepOne(piece)
  {
    KeepStrippedAppend(pieces, [piece]);
    assert [piece][1..] == [];
  }

  /** A character that occurs in no piece occurs in no kept piece. */
  lemma {:induction false} KeepStrippedWithout(pieces: seq<string>, c: char)
    requires forall k | 0 <= k < |pieces| :: c !in pieces[k]
    ensures forall k | 0 <= k < |KeepStripped(pieces)| :: c !in KeepStripped(pieces)[k]
    decreases |pieces|
  {
    if pieces != [] {
      KeepStrippedWithout(pieces[1..], c);
      StripWithin(pieces[0], c);
    }
  }

  lemma {:induction false} KeepStrippedClean(pieces: seq<string>)
    ensures forall k | 0 <= k < |KeepStripped(pieces)| :: Clean(KeepStripped(pieces)[k])
    decreases |pieces|
  {
    if pieces != [] {
      var head := KeepOne(pieces[0]);
      var tail := KeepStripped(pieces[1..]);
      KeepStrippedClean(pieces[1..]);
      if head != [] {
        StripNonEmpty(pieces[0]);
      }
      AllCleanAppend(head, tail);
    }
  }

  lemma AllCleanAppend(head: seq<string>, tail: seq<string>)
    requires forall k | 0 <= k < |head| :: Clean(head[k])
    requires forall k | 0 <= k < |tail| :: Clean(tail[k])
    ensures forall k | 0 <= k < |head + tail| :: Clean((head + tail)[k])
  {
  }

  predicate IsAsciiLetter(c: char) { ('a' <= c <= 'z') || ('A' <= c <= 'Z') }

  predicate IsDigit(c: char) { '0' <= c <= '9' }

  predicate AllDigits(s: string) { forall k | 0 <= k < |s| :: IsDigit(s[k]) }

  /** The length of the run of ASCII digits at the start of `s`. */
  function DigitRun(s: string): (n: nat)
    ensures n <= |s|
    ensures forall k | 0 <= k < n :: IsDigit(s[k])
    ensures n < |s| ==> !IsDigit(s[n])
  {
    if s != [] && IsDigit(s[0]) then 1 + DigitRun(s[1..]) else 0
  }

  /** The digit run of digits followed by a non-digit is exactly the digits. */
  lemma {:induction false} DigitRunOf(id: string, rest: string)
    requires AllDigits(id) && (rest == [] || !IsDigit(rest[0]))
    ensures DigitRun(id + rest) == |id|
    decreases |id|
  {
    if id != [] {
      assert (id + rest)[1..] == id[1..] + rest;
      DigitRunOf(id[1..], rest);
    } else {
      assert id + rest == rest;
    }
  }

  /** `str.lower()` restricted to ASCII letters. */
  function LowerChar(c: char): char
  {
    if 'A' <= c <= 'Z' then (c as int + 32) as char else c
  }

  function Lower(s: string): (r: string)
    ensures |r| == |s|
  {
    seq(|s|, k requires 0 <= k < |s| => LowerChar(s[k]))
  }

  predicate StartsWith(s: string, prefix: string)
  {
    |prefix| <= |s| && s[..|prefix|] == prefix
  }

  predicate OccursAt(s: string, t: string, i: int)
  {
    0 <= i && i + |t| <= |s| && s[i..i + |t|] == t
  }

  /** Python's `t in s` for strings (also `re.search` of a literal pattern). */
  predicate Contains(s: string, t: string)
  {
    exists i | 0 <= i <= |s| - |t| :: OccursAt(s, t, i)
  }

  /** `os.path.basename`: the part after the last '/'. */
  function Basename(p: string): (r: string)
    ensures |r| <= |p|
  {
    if p == [] || p[|p| - 1] == '/' then [] else Basename(p[..|p| - 1]) + [p[|p| - 1]]
  }

  /** Python's `a < b` on strings: code-point lexicographic order. */
  predicate LexLess(a: string, b: string)
  {
    if a == [] then b != []
    else if b == [] then false
    else if a[0] != b[0] then a[0] < b[0]
    else LexLess(a[1..], b[1..])
  }

  lemma {:induction false} LexIrreflexive(a: string)
    ensures !LexLess(a, a)
    decreases |a|
  {
    if a != [] { LexIrreflexive(a[1..]); }
  }

  lemma {:induction false} LexTransitive(a: string, b: string, c: string)
    requires LexLess(a, b) && LexLess(b, c)
    ensures LexLess(a, c)
    decreases |a|
  {
    if a != [] && b != [] && c != [] && a[0] == b[0] && b[0] == c[0] {
      LexTransitive(a[1..], b[1..], c[1..]);
    }
  }

  lemma {:induction false} LexTotal(a: string, b: string)
    requires a != b
    ensures LexLess(a, b) || LexLess(b, a)
    decreases |a|
  {
    if a != [] && b != [] && a[0] == b[0] {
      assert a == [a[0]] + a[1..] && b == [b[0]] + b[1..];
      LexTotal(a[1..], b[1..]);
    }
  }

  lemma {:induction false} LexAsymmetric(a: string, b: string)
    requires LexLess(a, b)
    ensures !LexLess(b, a)
    decreases |a|
  {
    if a != [] && b != [] && a[0] == b[0] {
      LexAsymmetric(a[1..], b[1..]);
    }
  }

  function DigitChar(d: nat): char
    requires d < 10
  {
    ('0' as int + d) as char
  }

  function DigitValue(c: char): nat
    requires IsDigit(c)
  {
    c as int - '0' as int
  }

  /** `str(n)` for a natural number. */
  function NatToString(n: nat): (r: string)
    ensures r != [] && AllDigits(r)
  {
    if n < 10 then [DigitChar(n)] else NatToString(n / 10) + [DigitChar(n % 10)]
  }

  /** `int(s)` for a string of ASCII digits. */
  function ParseDigits(s: string): nat
    requires AllDigits(s)
  {
    if s == [] then 0 else ParseDigits(s[..|s| - 1]) * 10 + DigitValue(s[|s| - 1])
  }

  lemma {:induction false} ParseNatToString(n: nat)
    ensures ParseDigits(NatToString(n)) == n
  {
    if n >= 10 {
      ParseNatToString(n / 10);
      var s := NatToString(n);
      assert s[..|s| - 1] == NatToString(n / 10);
    }
  }

  lemma {:induction false} ParseLeadingZero(s: string)
    requires AllDigits(s)
    ensures AllDigits("0" + s) && ParseDigits("0" + s) == ParseDigits(s)
    decreases |s|
  {
    var t := "0" + s;
    assert AllDigits(t) by {
      forall k | 0 <= k < |t| ensures IsDigit(t[k]) {
        if k > 0 { assert t[k] == s[k - 1]; }
      }
    }
    if s != [] {
      ParseLeadingZero(s[..|s| - 1]);
      assert t[..|t| - 1] == "0" + s[..|s| - 1];
    }
  }

  /** Python's `f"{n:03d}"`: the decimal digits of `n`, left-padded with '0' to width 3. */
  function ZeroPad3(n: nat): (r: string)
    ensures AllDigits(r) && |r| >= 3
    ensures ParseDigits(r) == n
  {
    ParseNatToString(n);
    var d := NatToString(n);
    if |d| >= 3 then d
    else if |d| == 2 then
      ParseLeadingZero(d);
      "0" + d
    else
      ParseLeadingZero(d);
      ParseLeadingZero("0" + d);
      "0" + ("0" + d)
  }
}
