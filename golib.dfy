/**
 * The functions of Go's standard library that the handlers call, with the
 * behaviour they have in Go: strings.HasPrefix, strings.TrimPrefix,
 * strings.Split (one-character separator), strings.ToLower (for the
 * characters whose lower case is ASCII; others are kept),
 * strconv.ParseInt (base 10, 64 bits), strconv.FormatInt (base 10),
 * filepath.Ext and filepath.Base (with '/' as the separator), and the
 * two's-complement wrap-around of int64 arithmetic.
 */
module GoLib {
  import opened Wrappers

  const MinInt64: int := -0x8000_0000_0000_0000
  const MaxInt64: int := 0x7fff_ffff_ffff_ffff
  const TwoTo64: int := 0x1_0000_0000_0000_0000

  /** Go's int64. */
  type int64 = x: int | -0x8000_0000_0000_0000 <= x <= 0x7fff_ffff_ffff_ffff

  /** Go's a - b on int64: the exact difference, wrapped around once when it leaves the int64 range. */
  function Sub64(a: int64, b: int64): (r: int64)
    ensures MinInt64 <= a - b <= MaxInt64 ==> r == a - b
  {
    var d := a - b;
    if d > MaxInt64 then d - TwoTo64 else if d < MinInt64 then d + TwoTo64 else d
  }

  /** Sub64 is two's-complement subtraction: it agrees with a - b modulo 2^64. */
  lemma Sub64Congruent(a: int64, b: int64)
    ensures (a - b - Sub64(a, b)) % TwoTo64 == 0
  {
  }

  // ---------------------------------------------------------------- strings

  predicate HasPrefix(s: string, prefix: string) {
    prefix <= s
  }

  /** strings.TrimPrefix: s without prefix, or s unchanged when it does not start with it. */
  function TrimPrefix(s: string, prefix: string): (r: string)
    ensures HasPrefix(s, prefix) ==> prefix + r == s
    ensures !HasPrefix(s, prefix) ==> r == s
  {
    if HasPrefix(s, prefix) then s[|prefix|..] else s
  }

  /** Number of occurrences of c in s. */
  function Count(s: string, c: char): nat {
    if s == [] then 0 else (if s[0] == c then 1 else 0) + Count(s[1..], c)
  }

  /** The parts joined with sep between each pair (strings.Join). */
  function Join(parts: seq<string>, sep: char): string
    requires |parts| >= 1
  {
    if |parts| == 1 then parts[0] else parts[0] + [sep] + Join(parts[1..], sep)
  }

  /**
   * strings.Split(s, sep) for a one-character separator: the maximal
   * sep-free pieces of s; one more piece than there are separators, so
   * Split("", sep) == [""].
   */
  function Split(s: string, sep: char): (parts: seq<string>)
    ensures |parts| >= 1
  {
    if s == [] then [""]
    else
      var rest := Split(s[1..], sep);
      if s[0] == sep then [""] + rest else [[s[0]] + rest[0]] + rest[1..]
  }

  /** Split yields one part more than there are separators, none holding sep, and joins back to s. */
  lemma SplitProperties(s: string, sep: char)
    ensures var parts := Split(s, sep);
      && |parts| == Count(s, sep) + 1
      && (forall i :: 0 <= i < |parts| ==> sep !in parts[i])
      && Join(parts, sep) == s
  {
    SplitCount(s, sep);
    SplitSepFree(s, sep);
    SplitJoins(s, sep);
  }

  lemma {:induction false} SplitCount(s: string, sep: char)
    ensures |Split(s, sep)| == Count(s, sep) + 1
  {
    if s != [] {
      SplitCount(s[1..], sep);
    }
  }

  lemma {:induction false} SplitSepFree(s: string, sep: char)
    ensures forall i :: 0 <= i < |Split(s, sep)| ==> sep !in Split(s, sep)[i]
  {
    if s != [] {
      SplitSepFree(s[1..], sep);
      var rest := Split(s[1..], sep);
      if s[0] != sep {
        var parts := [[s[0]] + rest[0]] + rest[1..];
        assert forall i :: 1 <= i < |parts| ==> parts[i] == rest[i];
        assert sep !in [s[0]] + rest[0];
      }
    }
  }

  lemma {:induction false} SplitJoins(s: string, sep: char)
    ensures Join(Split(s, sep), sep) == s
  {
    if s != [] {
      SplitJoins(s[1..], sep);
      var rest := Split(s[1..], sep);
      if s[0] == sep {
        assert ([""] + rest)[1..] == rest;
        assert [sep] + s[1..] == s;
      } else {
        var parts := [[s[0]] + rest[0]] + rest[1..];
        assert parts[1..] == rest[1..];
        if |rest| == 1 {
          assert rest[0] == s[1..];
        } else {
          assert Join(rest, sep) == rest[0] + [sep] + Join(rest[1..], sep);
          assert Join(parts, sep) == ([s[0]] + rest[0]) + [sep] + Join(rest[1..], sep);
        }
        assert [s[0]] + s[1..] == s;
      }
    }
  }

  /** Splitting a join of sep-free parts gives the parts back. */
  lemma {:induction false} SplitJoin(parts: seq<string>, sep: char)
    requires |parts| >= 1
    requires forall i :: 0 <= i < |parts| ==> sep !in parts[i]
    ensures Split(Join(parts, sep), sep) == parts
  {
    if |parts| == 1 {
      SplitPiece(parts[0], "", sep);
      assert parts[0] + "" == parts[0];
    } else {
      var tail := Join(parts[1..], sep);
      SplitJoin(parts[1..], sep);
      SplitPiece(parts[0], [sep] + tail, sep);
      assert parts[0] + [sep] + tail == parts[0] + ([sep] + tail);
      assert ([sep] + tail)[1..] == tail;
      assert Split([sep] + tail, sep) == [""] + parts[1..];
      assert parts[0] + "" == parts[0];
      assert [parts[0]] + parts[1..] == parts;
    }
  }

  /** A sep-free piece in front of t joins the first part of Split(t). */
  lemma {:induction false} SplitPiece(p: string, t: string, sep: char)
    requires sep !in p
    ensures Split(p + t, sep) == [p + Split(t, sep)[0]] + Split(t, sep)[1..]
  {
    if p == [] {
      assert p + t == t;
      assert p + Split(t, sep)[0] == Split(t, sep)[0];
      assert [Split(t, sep)[0]] + Split(t, sep)[1..] == Split(t, sep);
    } else {
      SplitPiece(p[1..], t, sep);
      assert (p + t)[1..] == p[1..] + t;
      assert [p[0]] + (p[1..] + Split(t, sep)[0]) == p + Split(t, sep)[0];
    }
  }

  /**
   * unicode.ToLower of one character, for every character whose lower case
   * is ASCII: the letters 'A'..'Z', the capital I with dot above (U+0130)
   * and the Kelvin sign (U+212A). Every other character is kept.
   */
  function LowerChar(c: char): char {
    if 'A' <= c <= 'Z' then (c as int + 32) as char
    else if c == '\U{0130}' then 'i'
    else if c == '\U{212A}' then 'k'
    else c
  }

  /** strings.ToLower, one character at a time. */
  function ToLower(s: string): string {
    seq(|s|, i requires 0 <= i < |s| => LowerChar(s[i]))
  }

  // ---------------------------------------------------------------- strconv

  predicate IsDigit(c: char) {
    '0' <= c <= '9'
  }

  predicate AllDigits(s: string) {
    forall i :: 0 <= i < |s| ==> IsDigit(s[i])
  }

  /** The value of a string of decimal digits. */
  function DigitsValue(s: string): nat
    requires AllDigits(s)
  {
    if s == [] then 0 else DigitsValue(s[..|s| - 1]) * 10 + (s[|s| - 1] as int - '0' as int)
  }

  /**
   * strconv.ParseInt(s, 10, 64): an optional '+' or '-', then one or more
   * decimal digits, and the value must fit in an int64; None is the error.
   */
  function ParseInt(s: string): Option<int64> {
    if s == "" then None
    else
      var neg := s[0] == '-';
      var digits := if s[0] == '+' || s[0] == '-' then s[1..] else s;
      if digits == "" || !AllDigits(digits) then None
      else
        var magnitude: int := DigitsValue(digits);
        var v := if neg then -magnitude else magnitude;
        if MinInt64 <= v <= MaxInt64 then Some(v) else None
  }

  /**
   * What ParseInt accepts: nothing from the empty string, the value of a
   * plain digit string that fits, never a negative value without a '-',
   * nothing with a non-digit after the first character, and nothing from a
   * digit string too large for an int64 (Go's range error).
   */
  lemma ParseIntProperties(s: string)
    ensures ParseInt(s).Some? ==> s != ""
    ensures s != "" && AllDigits(s) && DigitsValue(s) <= MaxInt64 ==> ParseInt(s) == Some(DigitsValue(s))
    ensures ParseInt(s).Some? && '-' !in s ==> ParseInt(s).value >= 0
    ensures (exists i :: 1 <= i < |s| && !IsDigit(s[i])) ==> ParseInt(s) == None
    ensures s != "" && AllDigits(s) && DigitsValue(s) > MaxInt64 ==> ParseInt(s) == None
  {
    if s != "" && (s[0] == '+' || s[0] == '-') {
      assert forall i :: 1 <= i < |s| ==> s[i] == s[1..][i - 1];
    }
  }

  function DigitChar(d: nat): char
    requires d < 10
  {
    ('0' as int + d) as char
  }

  /** The shortest decimal representation of n. */
  function Digits(n: nat): string {
    if n < 10 then [DigitChar(n)] else Digits(n / 10) + [DigitChar(n % 10)]
  }

  /** Digits(n) is a digit string of value n with no leading zero. */
  lemma {:induction false} DigitsProperties(n: nat)
    ensures var s := Digits(n);
      |s| >= 1 && AllDigits(s) && DigitsValue(s) == n && (s[0] == '0' ==> n == 0)
  {
    if n >= 10 {
      DigitsProperties(n / 10);
      var s := Digits(n);
      assert s[..|s| - 1] == Digits(n / 10);
      assert s[0] == Digits(n / 10)[0];
    }
  }

  /** strconv.FormatInt(n, 10). */
  function FormatInt(n: int): string {
    if n < 0 then "-" + Digits(-n) else Digits(n)
  }

  /** FormatInt writes a sign only for negative numbers, and then only '-'; a non-negative n is plain digits. */
  lemma FormatIntProperties(n: int)
    ensures FormatInt(n) != "" && '+' !in FormatInt(n)
    ensures n >= 0 <==> FormatInt(n)[0] != '-'
    ensures n >= 0 ==> AllDigits(FormatInt(n)) && DigitsValue(FormatInt(n)) == n
  {
    var d := if n < 0 then Digits(-n) else Digits(n);
    DigitsProperties(if n < 0 then -n else n);
    assert forall i :: 0 <= i < |d| ==> d[i] != '+' && d[i] != '-';
    if n < 0 {
      assert FormatInt(n) == "-" + d;
      assert forall i :: 1 <= i < |FormatInt(n)| ==> FormatInt(n)[i] == d[i - 1];
    }
  }

  /** ParseInt reads back what FormatInt writes. */
  lemma FormatIntRoundTrip(n: int64)
    ensures ParseInt(FormatInt(n)) == Some(n)
  {
    var s := FormatInt(n);
    if n < 0 {
      var d := Digits(-(n as int));
      DigitsProperties(-(n as int));
      assert s[0] == '-' && s[1..] == d;
    } else {
      var d := Digits(n);
      DigitsProperties(n);
      assert s == d && s[0] != '+' && s[0] != '-';
      ParseIntProperties(s);
    }
  }

  // ----------------------------------------------------------- path/filepath

  /**
   * filepath.Ext: the suffix of path from the last '.' of its final
   * element, or "" when that element has no '.'.
   */
  function Ext(path: string): string {
    ExtFrom(path, |path|)
  }

  /** The scan of Ext, from position n - 1 down to the first '.' or '/'. */
  function ExtFrom(path: string, n: nat): string
    requires n <= |path|
  {
    if n == 0 then ""
    else if path[n - 1] == '/' then ""
    else if path[n - 1] == '.' then path[n - 1..]
    else ExtFrom(path, n - 1)
  }

  /**
   * Ext(path) is a suffix of path; a non-empty one is a '.' followed by
   * no '.' and no '/'; an empty one means every '.' of path lies before
   * some '/'.
   */
  lemma ExtProperties(path: string)
    ensures var e := Ext(path);
      && |e| <= |path| && e == path[|path| - |e|..]
      && (e != "" ==> e[0] == '.' && forall i :: 1 <= i < |e| ==> e[i] != '.' && e[i] != '/')
      && (e == "" ==> forall j :: 0 <= j < |path| && path[j] == '.' ==> exists k :: j < k < |path| && path[k] == '/')
  {
    ExtFromProperties(path, |path|);
  }

  /** ExtProperties for the scan from n, when path[n..] holds no '.' and no '/'. */
  lemma {:induction false} ExtFromProperties(path: string, n: nat)
    requires n <= |path|
    requires forall i :: n <= i < |path| ==> path[i] != '.' && path[i] != '/'
    ensures var e := ExtFrom(path, n);
      && |e| <= |path| && e == path[|path| - |e|..]
      && (e != "" ==> e[0] == '.' && forall i :: 1 <= i < |e| ==> e[i] != '.' && e[i] != '/')
      && (e == "" ==> forall j :: 0 <= j < n && path[j] == '.' ==> exists k :: j < k < |path| && path[k] == '/')
  {
    if n > 0 && path[n - 1] != '/' && path[n - 1] != '.' {
      ExtFromProperties(path, n - 1);
    }
  }

  /** Ext of a name that ends in a '.'-led, '.'- and '/'-free suffix is that suffix. */
  lemma ExtOfSuffix(stem: string, ext: string)
    requires ext != "" && ext[0] == '.'
    requires forall i :: 1 <= i < |ext| ==> ext[i] != '.' && ext[i] != '/'
    ensures Ext(stem + ext) == ext
  {
    var path := stem + ext;
    var e := Ext(path);
    ExtProperties(path);
    assert path[|stem|] == '.';
    if e == "" {
      assert false;
    }
    var k := |path| - |e|;
    if k < |stem| {
      assert false;
    }
    if k > |stem| {
      assert false;
    }
  }

  /** path with its trailing '/' characters removed. */
  function TrimTrailingSlashes(p: string): string {
    if p != "" && p[|p| - 1] == '/' then TrimTrailingSlashes(p[..|p| - 1]) else p
  }

  /** TrimTrailingSlashes removes a run of '/' from the end, and all of it. */
  lemma {:induction false} TrimTrailingSlashesProperties(p: string)
    ensures var r := TrimTrailingSlashes(p);
      && r <= p && (r == "" || r[|r| - 1] != '/')
      && (forall i :: |r| <= i < |p| ==> p[i] == '/')
  {
    if p != "" && p[|p| - 1] == '/' {
      TrimTrailingSlashesProperties(p[..|p| - 1]);
    }
  }

  /** The longest '/'-free suffix of p. */
  function LastElement(p: string): string {
    if p == "" || p[|p| - 1] == '/' then "" else LastElement(p[..|p| - 1]) + [p[|p| - 1]]
  }

  /** LastElement(p) is a '/'-free suffix of p that starts right after a '/' or at the start of p. */
  lemma {:induction false} LastElementProperties(p: string)
    ensures var r := LastElement(p);
      && |r| <= |p| && r == p[|p| - |r|..] && '/' !in r
      && (|r| < |p| ==> p[|p| - |r| - 1] == '/')
  {
    if p != "" && p[|p| - 1] != '/' {
      var q := p[..|p| - 1];
      LastElementProperties(q);
      var r0 := LastElement(q);
      var r := r0 + [p[|p| - 1]];
      var k := |p| - |r|;
      assert r0 == p[k..|p| - 1] by {
        assert q[|q| - |r0|..] == p[k..|p| - 1];
      }
      assert r == p[k..] by {
        assert p[k..] == p[k..|p| - 1] + [p[|p| - 1]];
      }
      if k > 0 {
        assert q[k - 1] == p[k - 1];
      }
    }
  }

  /**
   * filepath.Base: the last element of path once trailing slashes are
   * removed; "." for the empty path and "/" for a path of slashes only.
   */
  function Base(path: string): string {
    if path == "" then "."
    else
      var t := LastElement(TrimTrailingSlashes(path));
      if t == "" then "/" else t
  }

  /** Base never returns "", returns "/" or a '/'-free name, and "." for the empty path. */
  lemma BaseProperties(path: string)
    ensures Base(path) != ""
    ensures Base(path) == "/" || '/' !in Base(path)
    ensures path == "" ==> Base(path) == "."
  {
    if path != "" {
      LastElementProperties(TrimTrailingSlashes(path));
    }
  }

  /** The base of dir + "/" + name, or of name alone, is name. */
  lemma BaseOfJoin(dir: string, name: string)
    requires name != "" && '/' !in name
    ensures Base(dir + "/" + name) == name
    ensures Base(name) == name
  {
    assert name[|name| - 1] != '/' by {
      assert name[|name| - 1] in name;
    }
    var q := dir + "/" + name;
    assert q == (dir + "/") + name;
    assert q[|q| - 1] == name[|name| - 1];
    LastElementAfterSlash(dir + "/", name);
    LastElementAfterSlash("", name);
    assert "" + name == name;
  }

  /** The last element of p + name, where p is empty or ends in '/', is name. */
  lemma {:induction false} LastElementAfterSlash(p: string, name: string)
    requires name != "" && '/' !in name
    requires p == "" || p[|p| - 1] == '/'
    ensures LastElement(p + name) == name
  {
    var init, last := name[..|name| - 1], name[|name| - 1];
    assert name == init + [last];
    assert last != '/' by {
      assert last in name;
    }
    var q := p + name;
    assert q == (p + init) + [last];
    assert q[..|q| - 1] == p + init && q[|q| - 1] == last;
    assert LastElement(q) == LastElement(p + init) + [last];
    if init == "" {
      assert p + init == p;
    } else {
      assert '/' !in init by {
        assert forall c :: c in init ==> c in name;
      }
      LastElementAfterSlash(p, init);
    }
  }
}
