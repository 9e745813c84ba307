/** The string algorithms the configuration parsers use: `boost::split` on
    one separator character, `std::replace` of a character and
    `boost::trim_all` (trim both ends, and shrink every inner run of
    whitespace to its first character). */
module Text {
  import opened Util

  /** `isspace` in the C locale. */
  predicate IsSpace(c: char)
  {
    c == ' ' || c == '\t' || c == '\n' || c == '\r' || c == '\U{B}' || c == '\U{C}'
  }

  // ----- split ---------------------------------------------------------------

  /** `boost::split(parts, s, is_any_of(sep))`: the pieces between separators;
      an empty string is one empty piece. */
  function Split(s: string, sep: char): (r: seq<string>)
    ensures |r| >= 1
    decreases |s|
  {
    if s == [] then [""]
    else
      var tail := Split(s[1..], sep);
      if s[0] == sep then [""] + tail else [[s[0]] + tail[0]] + tail[1..]
  }

  lemma {:induction false} SplitPiecesFree(s: string, sep: char)
    ensures forall i :: 0 <= i < |Split(s, sep)| ==> sep !in Split(s, sep)[i]
    decreases |s|
  {
    if s != [] {
      SplitPiecesFree(s[1..], sep);
    }
  }

  function JoinWith(sep: char, parts: seq<string>): string
    requires |parts| >= 1
  {
    if |parts| == 1 then parts[0] else parts[0] + [sep] + JoinWith(sep, parts[1..])
  }

  /** Joining the pieces with the separator gives the string back. */
  lemma {:induction false} SplitJoin(s: string, sep: char)
    ensures JoinWith(sep, Split(s, sep)) == s
    decreases |s|
  {
    if s != [] {
      SplitJoin(s[1..], sep);
      var tail := Split(s[1..], sep);
      if s[0] != sep && |tail| > 1 {
        assert ([s[0]] + tail[0]) + [sep] + JoinWith(sep, tail[1..]) == [s[0]] + (tail[0] + [sep] + JoinWith(sep, tail[1..]));
      }
    }
  }

  /** A separator-free prefix is the first piece. */
  lemma {:induction false} SplitAfterPiece(x: string, sep: char, y: string)
    requires sep !in x
    ensures Split(x + [sep] + y, sep) == [x] + Split(y, sep)
    decreases |x|
  {
    if x == [] {
      assert x + [sep] + y == [sep] + y;
      assert ([sep] + y)[1..] == y;
    } else {
      SplitAfterPiece(x[1..], sep, y);
      assert (x + [sep] + y)[1..] == x[1..] + [sep] + y;
      assert [x[0]] + x[1..] == x;
    }
  }

  lemma {:induction false} SplitNoSeparator(x: string, sep: char)
    requires sep !in x
    ensures Split(x, sep) == [x]
    decreases |x|
  {
    if x != [] {
      SplitNoSeparator(x[1..], sep);
      assert [x[0]] + x[1..] == x;
    }
  }

  // ----- replace -------------------------------------------------------------

  /** `std::replace(s.begin(), s.end(), from, to)`. */
  function Replace(s: string, from: char, to: char): (r: string)
    ensures |r| == |s|
  {
    if s == [] then [] else Replace(s[..|s| - 1], from, to) + [if s[|s| - 1] == from then to else s[|s| - 1]]
  }

  /** Every occurrence of `from` becomes `to`; nothing else changes. */
  lemma {:induction false} ReplaceAt(s: string, from: char, to: char)
    ensures forall i :: 0 <= i < |s| ==> Replace(s, from, to)[i] == (if s[i] == from then to else s[i])
  {
    if s != [] {
      ReplaceAt(s[..|s| - 1], from, to);
    }
  }

  /** A string without `from` is left as it is. */
  lemma ReplaceAbsent(s: string, from: char, to: char)
    requires from !in s
    ensures Replace(s, from, to) == s
  {
    ReplaceAt(s, from, to);
  }

  // ----- trim_all --------------------------------------------------------------

  function TrimLeft(s: string): (r: string)
    ensures |r| <= |s|
  {
    if s != [] && IsSpace(s[0]) then TrimLeft(s[1..]) else s
  }

  /** `trim_left` drops the leading whitespace and keeps the rest. */
  lemma {:induction false} TrimLeftShape(s: string)
    ensures var r := TrimLeft(s);
            r == s[|s| - |r|..] && (r != [] ==> !IsSpace(r[0])) &&
            forall i :: 0 <= i < |s| - |r| ==> IsSpace(s[i])
  {
    if s != [] && IsSpace(s[0]) {
      TrimLeftShape(s[1..]);
    }
  }

  function TrimRight(s: string): (r: string)
    ensures |r| <= |s|
  {
    if s != [] && IsSpace(s[|s| - 1]) then TrimRight(s[..|s| - 1]) else s
  }

  /** `trim_right` drops the trailing whitespace and keeps the rest. */
  lemma {:induction false} TrimRightShape(s: string)
    ensures var r := TrimRight(s);
            r == s[..|r|] && (r != [] ==> !IsSpace(r[|r| - 1])) &&
            forall i :: |r| <= i < |s| ==> IsSpace(s[i])
  {
    if s != [] && IsSpace(s[|s| - 1]) {
      TrimRightShape(s[..|s| - 1]);
    }
  }

  /** Every inner run of whitespace shrunk to its first character. */
  function Compress(s: string): (r: string)
    ensures |r| <= |s|
    decreases |s|
  {
    if |s| < 2 then s
    else if IsSpace(s[0]) && IsSpace(s[1]) then Compress([s[0]] + s[2..])
    else [s[0]] + Compress(s[1..])
  }

  predicate NoSpaceRuns(s: string)
  {
    forall i :: 0 <= i < |s| - 1 ==> !(IsSpace(s[i]) && IsSpace(s[i + 1]))
  }

  lemma {:induction false} CompressNoRuns(s: string)
    ensures NoSpaceRuns(Compress(s))
    decreases |s|
  {
    if |s| >= 2 {
      if IsSpace(s[0]) && IsSpace(s[1]) {
        CompressNoRuns([s[0]] + s[2..]);
      } else {
        CompressNoRuns(s[1..]);
        CompressFirst(s[1..]);
      }
    }
  }

  lemma {:induction false} CompressFirst(s: string)
    requires s != []
    ensures Compress(s) != [] && Compress(s)[0] == s[0]
    decreases |s|
  {
    if |s| >= 2 && IsSpace(s[0]) && IsSpace(s[1]) {
      CompressFirst([s[0]] + s[2..]);
    }
  }

  lemma {:induction false} CompressLast(s: string)
    requires s != [] && !IsSpace(s[|s| - 1])
    ensures Compress(s) != [] && Compress(s)[|Compress(s)| - 1] == s[|s| - 1]
    decreases |s|
  {
    if |s| >= 2 {
      if IsSpace(s[0]) && IsSpace(s[1]) {
        CompressLast([s[0]] + s[2..]);
      } else {
        CompressLast(s[1..]);
      }
    }
  }

  /** A string with no whitespace run is left as it is. */
  lemma {:induction false} CompressKeeps(s: string)
    requires NoSpaceRuns(s)
    ensures Compress(s) == s
    decreases |s|
  {
    if |s| >= 2 {
      CompressKeeps(s[1..]);
    }
  }

  /** `boost::trim_all`. */
  function TrimAll(s: string): string
  {
    Compress(TrimRight(TrimLeft(s)))
  }

  /** The trimmed string starts and ends with a non-space and has no runs of
      whitespace. */
  lemma TrimAllShape(s: string)
    ensures var r := TrimAll(s);
            (r != [] ==> !IsSpace(r[0]) && !IsSpace(r[|r| - 1])) && NoSpaceRuns(r)
  {
    var t := TrimRight(TrimLeft(s));
    TrimLeftShape(s);
    TrimRightShape(TrimLeft(s));
    CompressNoRuns(t);
    if t != [] {
      CompressFirst(t);
      CompressLast(t);
      assert TrimLeft(s) != [];
      assert t[0] == TrimLeft(s)[0];
    }
  }

  /** Trimming a string that is already trimmed changes nothing. */
  lemma TrimAllKeeps(s: string)
    requires s != [] ==> !IsSpace(s[0]) && !IsSpace(s[|s| - 1])
    requires NoSpaceRuns(s)
    ensures TrimAll(s) == s
  {
    CompressKeeps(s);
  }

  lemma TrimAllIdempotent(s: string)
    ensures TrimAll(TrimAll(s)) == TrimAll(s)
  {
    TrimAllShape(s);
    TrimAllKeeps(TrimAll(s));
  }
}
