/** The two file-name expressions of app.py: the source format handed to
    the decoder (the text after the last '.', lower-cased) and the name of
    the transcript offered for download (the text before the first '.',
    followed by ".txt"). Both rest on Python's str.split with a one-char
    separator, modelled here with its inverse, join. */
module Filenames {

  const Dot: char := '.'

  /** str.split(sep): the maximal separator-free pieces, in order; an empty
      string, or adjacent separators, give empty pieces. */
  function SplitOn(s: string, sep: char): (parts: seq<string>)
    ensures |parts| >= 1
    ensures forall i :: 0 <= i < |parts| ==> sep !in parts[i]
  {
    if s == [] then [""]
    else
      var rest := SplitOn(s[1..], sep);
      if s[0] == sep then [""] + rest
      else [[s[0]] + rest[0]] + rest[1..]
  }

  /** str.join: the pieces with one separator between neighbours. */
  function JoinWith(parts: seq<string>, sep: char): string
    requires |parts| >= 1
  {
    if |parts| == 1 then parts[0] else parts[0] + [sep] + JoinWith(parts[1..], sep)
  }

  /** Number of occurrences of c in s. */
  function Count(s: string, c: char): nat
  {
    if s == [] then 0 else (if s[0] == c then 1 else 0) + Count(s[1..], c)
  }

  /** Joining the pieces of a split gives back the original string. */
  lemma {:induction false} JoinSplit(s: string, sep: char)
    ensures JoinWith(SplitOn(s, sep), sep) == s
  {
    if s != [] {
      var rest := SplitOn(s[1..], sep);
      JoinSplit(s[1..], sep);
      if s[0] == sep {
        assert ([""] + rest)[1..] == rest;
      } else {
        var parts := [[s[0]] + rest[0]] + rest[1..];
        assert parts[1..] == rest[1..];
        if |rest| > 1 {
          assert JoinWith(rest, sep) == rest[0] + [sep] + JoinWith(rest[1..], sep);
        }
      }
    }
  }

  /** A string without the separator splits into itself alone. */
  lemma {:induction false} SplitNoSep(s: string, sep: char)
    requires sep !in s
    ensures SplitOn(s, sep) == [s]
  {
    if s != [] {
      SplitNoSep(s[1..], sep);
      assert s[0] != sep && [s[0]] + s[1..] == s;
    }
  }

  /** A separator-free piece followed by the separator splits off first. */
  lemma {:induction false} SplitPrefix(p: string, sep: char, t: string)
    requires sep !in p
    ensures SplitOn(p + [sep] + t, sep) == [p] + SplitOn(t, sep)
  {
    var s := p + [sep] + t;
    if p == [] {
      assert s == [sep] + t && s[1..] == t;
    } else {
      assert s[1..] == p[1..] + [sep] + t;
      SplitPrefix(p[1..], sep, t);
      assert [p[0]] + p[1..] == p;
    }
  }

  /** Splitting a join of separator-free pieces gives back the pieces. */
  lemma {:induction false} SplitJoin(parts: seq<string>, sep: char)
    requires |parts| >= 1
    requires forall i :: 0 <= i < |parts| ==> sep !in parts[i]
    ensures SplitOn(JoinWith(parts, sep), sep) == parts
  {
    if |parts| == 1 {
      SplitNoSep(parts[0], sep);
    } else {
      SplitJoin(parts[1..], sep);
      SplitPrefix(parts[0], sep, JoinWith(parts[1..], sep));
    }
  }

  /** A split has one more piece than the string has separators. */
  lemma {:induction false} SplitPieceCount(s: string, sep: char)
    ensures |SplitOn(s, sep)| == Count(s, sep) + 1
  {
    if s != [] {
      SplitPieceCount(s[1..], sep);
    }
  }

  // ---------------------------------------------------------------------
  // Lower-casing

  predicate IsUpper(c: char)
  {
    'A' <= c <= 'Z'
  }

  function LowerChar(c: char): char
  {
    if IsUpper(c) then (c as int + 32) as char else c
  }

  /** str.lower on ASCII letters. */
  function Lower(s: string): (r: string)
    ensures |r| == |s|
    ensures forall i :: 0 <= i < |s| ==> !IsUpper(r[i])
  {
    seq(|s|, i requires 0 <= i < |s| => LowerChar(s[i]))
  }

  /** Lower-casing changes only upper-case letters, each to the letter 32
      code points above it; it introduces or removes no '.', and applying
      it twice is applying it once. */
  lemma LowerProperties(s: string)
    ensures forall i :: 0 <= i < |s| ==>
              (Lower(s)[i] == s[i] <==> !IsUpper(s[i])) &&
              (IsUpper(s[i]) ==> Lower(s)[i] as int == s[i] as int + 32)
    ensures Dot in Lower(s) <==> Dot in s
    ensures Lower(Lower(s)) == Lower(s)
  {
  }

  // ---------------------------------------------------------------------
  // The two expressions of app.py

  /** JoinWith ends with the last piece, right after a separator when
      there are at least two pieces. */
  lemma {:induction false} JoinEndsWithLast(parts: seq<string>, sep: char)
    requires |parts| >= 1
    ensures |JoinWith(parts, sep)| >= |parts[|parts| - 1]|
    ensures JoinWith(parts, sep)[|JoinWith(parts, sep)| - |parts[|parts| - 1]|..] == parts[|parts| - 1]
    ensures |parts| >= 2 ==>
              |JoinWith(parts, sep)| > |parts[|parts| - 1]| &&
              JoinWith(parts, sep)[|JoinWith(parts, sep)| - |parts[|parts| - 1]| - 1] == sep
  {
    if |parts| > 1 {
      JoinEndsWithLast(parts[1..], sep);
      var tail := JoinWith(parts[1..], sep);
      var last := parts[|parts| - 1];
      assert parts[1..][|parts[1..]| - 1] == last;
      var j := JoinWith(parts, sep);
      assert j == (parts[0] + [sep]) + tail;
      assert j[|j| - |last|..] == tail[|tail| - |last|..];
      if |parts| == 2 {
        assert tail == last;
        assert j[|j| - |last| - 1] == sep;
      } else {
        assert j[|j| - |last| - 1] == tail[|tail| - |last| - 1];
      }
    }
  }

  /** The format handed to the decoder (app.py:49): the text after the
      last '.' of the upload name, lower-cased; the whole name, lower-cased,
      when it has no '.'. The result contains no '.', and the name ends with
      the text it was made from, right after a '.' when there is one. */
  function SourceFormat(name: string): (f: string)
    ensures Dot !in f
    ensures exists ext :: |ext| <= |name| && name[|name| - |ext|..] == ext &&
              Dot !in ext && f == Lower(ext) &&
              (Dot !in name ==> ext == name) &&
              (Dot in name ==> |ext| < |name| && name[|name| - |ext| - 1] == Dot)
  {
    var parts := SplitOn(name, Dot);
    var ext := parts[|parts| - 1];
    JoinSplit(name, Dot);
    JoinEndsWithLast(parts, Dot);
    LowerProperties(ext);
    Lower(ext)
  }

  /** The name of the transcript offered for download (app.py:102): the
      text before the first '.' of the upload name, followed by ".txt". The
      stem has no '.', is a prefix of the upload name, and is the whole name
      when it has no '.' and otherwise stops right before its first '.'. */
  function DownloadName(name: string): (r: string)
    ensures |r| >= 4 && r[|r| - 4..] == ".txt"
    ensures var stem := r[..|r| - 4];
            Dot !in stem &&
            |stem| <= |name| && name[..|stem|] == stem &&
            (Dot !in name ==> stem == name) &&
            (Dot in name ==> |stem| < |name| && name[|stem|] == Dot)
  {
    var parts := SplitOn(name, Dot);
    var stem := parts[0];
    JoinSplit(name, Dot);
    if |parts| == 1 then
      assert name == stem;
      stem + ".txt"
    else
      assert name == stem + [Dot] + JoinWith(parts[1..], Dot);
      assert (stem + ".txt")[..|stem|] == stem;
      stem + ".txt"
  }
}
