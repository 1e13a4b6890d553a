/** The handful of Python string operations the bot relies on, stated on
    `seq<char>`: `sep.join`, `s.split(c)`, `str(n)` for integers, `int(s)`,
    `text.split()[-1]`, and the slicing `parts[i:i+5]` used to cut replies
    into messages of five vacancies. */
module Text {
  import opened Wrappers

  // ---------------------------------------------------------------------------
  // join and split

  /** Python's `sep.join(parts)`. */
  function Join(sep: string, parts: seq<string>): string
    decreases |parts|
  {
    if |parts| == 0 then ""
    else if |parts| == 1 then parts[0]
    else parts[0] + sep + Join(sep, parts[1..])
  }

  /** Number of occurrences of `c` in `s`. */
  function Occurrences(s: string, c: char): nat
    decreases |s|
  {
    if s == [] then 0 else (if s[0] == c then 1 else 0) + Occurrences(s[1..], c)
  }

  /** Python's `s.split(c)` for a one-character separator: one more piece than
      there are separators, so `"".split(",")` is `[""]`. */
  function Split(s: string, c: char): (r: seq<string>)
    ensures |r| == Occurrences(s, c) + 1
    ensures forall i :: 0 <= i < |r| ==> c !in r[i]
    decreases |s|
  {
    if s == [] then [""]
    else
      var rest := Split(s[1..], c);
      if s[0] == c then [""] + rest
      else [[s[0]] + rest[0]] + rest[1..]
  }

  /** `s` with every `c` replaced by `with`: the reference meaning of splitting on
      `c` and joining with `with`. */
  function ReplaceChar(s: string, c: char, with: string): string
    decreases |s|
  {
    if s == [] then "" else (if s[0] == c then with else [s[0]]) + ReplaceChar(s[1..], c, with)
  }

  /** Splitting on `c` and re-joining with `sep` replaces each `c` by `sep`. */
  lemma {:induction false} JoinSplit(s: string, c: char, sep: string)
    ensures Join(sep, Split(s, c)) == ReplaceChar(s, c, sep)
    decreases |s|
  {
    if s != [] {
      var rest := Split(s[1..], c);
      JoinSplit(s[1..], c, sep);
      if s[0] == c {
        assert ([""] + rest)[1..] == rest;
      } else {
        var parts := [[s[0]] + rest[0]] + rest[1..];
        if |rest| == 1 {
          assert Join(sep, parts) == [s[0]] + rest[0];
        } else {
          assert parts[1..] == rest[1..];
          assert Join(sep, parts) == [s[0]] + rest[0] + sep + Join(sep, rest[1..]);
        }
      }
    }
  }

  lemma {:induction false} ReplaceByItself(s: string, c: char)
    ensures ReplaceChar(s, c, [c]) == s
    decreases |s|
  {
    if s != [] {
      ReplaceByItself(s[1..], c);
      assert s == [s[0]] + s[1..];
    }
  }

  /** Round trip one way: re-joining the pieces of a split with the separator
      gives back the original string. */
  lemma JoinAfterSplit(s: string, c: char)
    ensures Join([c], Split(s, c)) == s
  {
    JoinSplit(s, c, [c]);
    ReplaceByItself(s, c);
  }

  lemma {:induction false} SplitWithoutSeparator(p: string, c: char)
    requires c !in p
    ensures Split(p, c) == [p]
    decreases |p|
  {
    if p != [] {
      SplitWithoutSeparator(p[1..], c);
      assert p == [p[0]] + p[1..];
    }
  }

  lemma {:induction false} SplitCons(p: string, c: char, t: string)
    requires c !in p
    ensures Split(p + [c] + t, c) == [p] + Split(t, c)
    decreases |p|
  {
    var s := p + [c] + t;
    if p == [] {
      assert s[1..] == t;
    } else {
      assert s[1..] == p[1..] + [c] + t;
      SplitCons(p[1..], c, t);
      assert [p[0]] + p[1..] == p;
    }
  }

  /** Round trip the other way: splitting a join of separator-free pieces gives
      back the pieces. */
  lemma {:induction false} SplitAfterJoin(ps: seq<string>, c: char)
    requires |ps| >= 1
    requires forall i :: 0 <= i < |ps| ==> c !in ps[i]
    ensures Split(Join([c], ps), c) == ps
    decreases |ps|
  {
    if |ps| == 1 {
      SplitWithoutSeparator(ps[0], c);
    } else {
      SplitAfterJoin(ps[1..], c);
      SplitCons(ps[0], c, Join([c], ps[1..]));
      assert [ps[0]] + ps[1..] == ps;
    }
  }

  /** A non-empty set has a member: the witness a `:|` choice over it needs. */
  lemma MemberOf<T>(s: set<T>) returns (x: T)
    requires s != {}
    ensures x in s
  {
    var y :| y in s;
    x := y;
  }

  /** No element occurs twice. */
  predicate Distinct<T(==)>(s: seq<T>)
  {
    forall i, j :: 0 <= i < j < |s| ==> s[i] != s[j]
  }

  // ---------------------------------------------------------------------------
  // messages of at most five parts

  /** Vacancies per chat message in the manual commands. */
  const ChunkSize := 5

  /** `[xs[i:i+5] for i in range(0, len(xs), 5)]`. */
  function Chunks<T>(xs: seq<T>): (r: seq<seq<T>>)
    ensures |r| == (|xs| + ChunkSize - 1) / ChunkSize
    ensures forall i :: 0 <= i < |r| ==> 0 < |r[i]| <= ChunkSize
    ensures forall i :: 0 <= i < |r| - 1 ==> |r[i]| == ChunkSize
    decreases |xs|
  {
    if xs == [] then []
    else if |xs| <= ChunkSize then [xs]
    else [xs[..ChunkSize]] + Chunks(xs[ChunkSize..])
  }

  function Flatten<T>(xss: seq<seq<T>>): seq<T>
    decreases |xss|
  {
    if xss == [] then [] else xss[0] + Flatten(xss[1..])
  }

  /** The chunks, concatenated in order, are the original list. */
  lemma {:induction false} FlattenChunks<T>(xs: seq<T>)
    ensures Flatten(Chunks(xs)) == xs
    decreases |xs|
  {
    if |xs| > ChunkSize {
      var r := Chunks(xs);
      FlattenChunks(xs[ChunkSize..]);
      assert r[1..] == Chunks(xs[ChunkSize..]);
      assert xs[..ChunkSize] + xs[ChunkSize..] == xs;
    } else if xs != [] {
      assert Chunks(xs)[1..] == [];
    }
  }

  /** Each chunk joined with `sep`: the messages sent for a list of parts. */
  function JoinEach(sep: string, chunks: seq<seq<string>>): (r: seq<string>)
    ensures |r| == |chunks|
    ensures forall i :: 0 <= i < |r| ==> r[i] == Join(sep, chunks[i])
    decreases |chunks|
  {
    if chunks == [] then [] else [Join(sep, chunks[0])] + JoinEach(sep, chunks[1..])
  }

  // ---------------------------------------------------------------------------
  // integers as text

  predicate IsDigit(c: char) { '0' <= c <= '9' }

  predicate AllDigits(s: string)
  {
    |s| >= 1 && forall i :: 0 <= i < |s| ==> IsDigit(s[i])
  }

  function DigitChar(d: nat): (c: char)
    requires d < 10
    ensures IsDigit(c)
  {
    ('0' as int + d) as char
  }

  function DigitValue(c: char): nat
    requires IsDigit(c)
  {
    c as int - '0' as int
  }

  /** Decimal text of a natural number, most significant digit first. */
  function NatToString(n: nat): (r: string)
    ensures AllDigits(r)
    decreases n
  {
    if n < 10 then [DigitChar(n)] else NatToString(n / 10) + [DigitChar(n % 10)]
  }

  /** Python's `str(i)` for an int. */
  function IntToString(i: int): string
  {
    if i < 0 then "-" + NatToString(-i) else NatToString(i)
  }

  function DigitsValue(s: string): nat
    requires AllDigits(s)
    decreases |s|
  {
    if |s| == 1 then DigitValue(s[0])
    else 10 * DigitsValue(s[..|s| - 1]) + DigitValue(s[|s| - 1])
  }

  /** Python's `int(s)` on a token without blanks: an optional sign followed by
      ASCII digits; anything else raises `ValueError`, modelled as `None`. */
  function ParseInt(s: string): Option<int>
  {
    if |s| >= 1 && (s[0] == '-' || s[0] == '+') then
      if AllDigits(s[1..]) then
        var magnitude: int := DigitsValue(s[1..]);
        Some(if s[0] == '-' then -magnitude else magnitude)
      else None
    else if AllDigits(s) then Some(DigitsValue(s))
    else None
  }

  lemma {:induction false} DigitsOfNat(n: nat)
    ensures DigitsValue(NatToString(n)) == n
    decreases n
  {
    if n >= 10 {
      DigitsOfNat(n / 10);
      var s := NatToString(n);
      assert s[..|s| - 1] == NatToString(n / 10);
    }
  }

  /** `int(str(i)) == i`. */
  lemma ParseIntOfIntToString(i: int)
    ensures ParseInt(IntToString(i)) == Some(i)
  {
    if i < 0 {
      DigitsOfNat(-i);
      assert ("-" + NatToString(-i))[1..] == NatToString(-i);
    } else {
      DigitsOfNat(i);
    }
  }

  // ---------------------------------------------------------------------------
  // the last blank-separated word

  /** The characters Python's `str.split()` treats as blanks. */
  const SpaceChars: set<char> := {
    ' ', '\t', '\n', '\U{B}', '\U{C}', '\r', '\U{1C}', '\U{1D}', '\U{1E}', '\U{1F}', '\U{85}', '\U{A0}',
    '\U{1680}', '\U{2000}', '\U{2001}', '\U{2002}', '\U{2003}', '\U{2004}', '\U{2005}', '\U{2006}',
    '\U{2007}', '\U{2008}', '\U{2009}', '\U{200A}', '\U{2028}', '\U{2029}', '\U{202F}', '\U{205F}',
    '\U{3000}'
  }

  predicate IsSpace(c: char)
  {
    c in SpaceChars
  }

  predicate NoSpace(s: string)
  {
    forall i :: 0 <= i < |s| ==> !IsSpace(s[i])
  }

  /** `s` without its trailing blanks. */
  function TrimEnd(s: string): (r: string)
    ensures |r| <= |s| && s[..|r|] == r
    ensures forall i :: |r| <= i < |s| ==> IsSpace(s[i])
    ensures r == [] || !IsSpace(r[|r| - 1])
    decreases |s|
  {
    if s != [] && IsSpace(s[|s| - 1]) then TrimEnd(s[..|s| - 1]) else s
  }

  /** The longest blank-free suffix of `s`. */
  function LastRun(s: string): (r: string)
    ensures |r| <= |s| && s[|s| - |r|..] == r
    ensures NoSpace(r)
    ensures |r| == |s| || IsSpace(s[|s| - |r| - 1])
    decreases |s|
  {
    if s != [] && !IsSpace(s[|s| - 1]) then LastRun(s[..|s| - 1]) + [s[|s| - 1]] else []
  }

  /** Python's `s.split()[-1]`, or `None` where that raises `IndexError`
      because `s` holds no word at all. */
  function LastWord(s: string): (r: Option<string>)
    ensures r.None? <==> forall i :: 0 <= i < |s| ==> IsSpace(s[i])
    ensures r.Some? ==> r.value != [] && NoSpace(r.value)
    ensures r.Some? ==> var t := TrimEnd(s);
                        |r.value| <= |t| && t[|t| - |r.value|..] == r.value
                        && (|r.value| == |t| || IsSpace(t[|t| - |r.value| - 1]))
  {
    var t := TrimEnd(s);
    if t == [] then None else Some(LastRun(t))
  }

  /** A non-blank character extends the last run. */
  lemma LastRunSnoc(s: string, c: char)
    requires !IsSpace(c)
    ensures LastRun(s + [c]) == LastRun(s) + [c]
  {
    var t := s + [c];
    assert t[..|t| - 1] == s;
  }

  /** After a blank (or at the start), the last run is the blank-free text
      that follows. */
  lemma {:induction false} LastRunAfterBlank(x: string, w: string)
    requires x == [] || IsSpace(x[|x| - 1])
    requires NoSpace(w)
    ensures LastRun(x + w) == w
    decreases |w|
  {
    if w == [] {
      assert x + w == x;
    } else {
      var init, last := w[..|w| - 1], w[|w| - 1];
      assert x + w == (x + init) + [last];
      LastRunAfterBlank(x, init);
      LastRunSnoc(x + init, last);
      assert init + [last] == w;
    }
  }

  /** The word after the last blank is what `split()[-1]` returns. */
  lemma LastWordAfterBlank(prefix: string, w: string)
    requires w != [] && NoSpace(w)
    ensures LastWord(prefix + " " + w) == Some(w)
  {
    var s := prefix + " " + w;
    assert TrimEnd(s) == s;
    assert (prefix + " ") + w == s;
    LastRunAfterBlank(prefix + " ", w);
  }
}
