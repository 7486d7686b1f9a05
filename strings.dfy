/** The three JavaScript string operations the note filters rely on:
    `String.prototype.split` on a one-character separator,
    `String.prototype.trim`, and the substring test `contains` (the
    host's alias of `String.prototype.includes`). */
module Strings {

  /** The code points `trim` strips: ECMAScript's WhiteSpace (tab, vertical
      tab, form feed, the byte order mark and every space separator of
      category Zs) and LineTerminator (line feed, carriage return, U+2028,
      U+2029). */
  predicate IsWhitespace(c: char)
  {
    || c == '\t' || c == '\n' || c == '\U{000B}' || c == '\U{000C}' || c == '\r'
    || c == ' ' || c == '\U{00A0}' || c == '\U{1680}'
    || ('\U{2000}' <= c <= '\U{200A}')
    || c == '\U{2028}' || c == '\U{2029}' || c == '\U{202F}' || c == '\U{205F}'
    || c == '\U{3000}' || c == '\U{FEFF}'
  }

  predicate AllWhitespace(s: string)
  {
    forall i :: 0 <= i < |s| ==> IsWhitespace(s[i])
  }

  /** Neither end of `s` is whitespace. */
  predicate IsTrimmed(s: string)
  {
    s == [] || (!IsWhitespace(s[0]) && !IsWhitespace(s[|s| - 1]))
  }

  /** `s` with its leading whitespace removed: a suffix of `s` preceded
      only by whitespace and not starting with whitespace. */
  function TrimStart(s: string): (r: string)
    ensures |r| <= |s| && r == s[|s| - |r|..]
    ensures AllWhitespace(s[..|s| - |r|])
    ensures r == [] || !IsWhitespace(r[0])
  {
    if s != [] && IsWhitespace(s[0]) then
      var r := TrimStart(s[1..]);
      assert s[..|s| - |r|] == [s[0]] + s[1..][..|s| - 1 - |r|];
      AllWhitespaceCons(s[0], s[1..][..|s| - 1 - |r|]);
      r
    else s
  }

  /** `s` with its trailing whitespace removed: a prefix of `s` followed
      only by whitespace and not ending with whitespace. */
  function TrimEnd(s: string): (r: string)
    ensures |r| <= |s| && r == s[..|r|]
    ensures AllWhitespace(s[|r|..])
    ensures r == [] || !IsWhitespace(r[|r| - 1])
  {
    if s != [] && IsWhitespace(s[|s| - 1]) then
      var t := s[..|s| - 1];
      var r := TrimEnd(t);
      assert s[|r|..] == t[|r|..] + [s[|s| - 1]];
      AllWhitespaceSnoc(t[|r|..], s[|s| - 1]);
      r
    else s
  }

  /** `s.trim()`: `s` without its leading and trailing whitespace. */
  function Trim(s: string): (r: string)
    ensures |r| <= |s|
    ensures IsTrimmed(r)
    ensures r == [] <==> AllWhitespace(s)
  {
    var t := TrimStart(s);
    var r := TrimEnd(t);
    assert r == [] <==> AllWhitespace(s) by {
      if r == [] {
        assert AllWhitespace(t) by {
          assert t == t[|r|..];
        }
        assert s == s[..|s| - |t|] + t;
      } else {
        assert !IsWhitespace(s[|s| - |t|]) by {
          assert t[0] == r[0];
        }
      }
    }
    r
  }

  /** The trimmed string is the slice of `s` that remains once the leading
      and the trailing whitespace are cut off. */
  lemma TrimIsSlice(s: string)
    ensures exists i ::
      && 0 <= i && i + |Trim(s)| <= |s|
      && Trim(s) == s[i..i + |Trim(s)|]
      && AllWhitespace(s[..i])
      && AllWhitespace(s[i + |Trim(s)|..])
  {
    var i := |s| - |TrimStart(s)|;
    assert Trim(s) == s[i..i + |Trim(s)|];
  }

  /** Trimming adds no character: one absent from `s` is absent from its
      trim. */
  lemma TrimKeepsAbsent(s: string, c: char)
    requires c !in s
    ensures c !in Trim(s)
  {
    var t := TrimStart(s);
    forall k | 0 <= k < |t| ensures t[k] != c {
      assert t[k] == s[|s| - |t| + k];
    }
    var r := TrimEnd(t);
    forall k | 0 <= k < |r| ensures r[k] != c {
      assert r[k] == t[k];
    }
  }

  /** Leading whitespace does not change the trim. */
  lemma TrimLeadingWhitespace(s: string)
    requires s != [] && IsWhitespace(s[0])
    ensures Trim(s) == Trim(s[1..])
  {
  }

  lemma TrimOfTrimmed(s: string)
    requires IsTrimmed(s)
    ensures Trim(s) == s
  {
  }

  /** Trimming a second time changes nothing. */
  lemma TrimIdempotent(s: string)
    ensures Trim(Trim(s)) == Trim(s)
  {
    TrimOfTrimmed(Trim(s));
  }

  /** `s.split(sep)`: the maximal runs of `s` between separators, so one
      more piece than there are separators; an empty `s` gives one empty
      piece, and adjacent or trailing separators give empty pieces. */
  function Split(s: string, sep: char): (r: seq<string>)
    ensures |r| >= 1
    ensures forall i :: 0 <= i < |r| ==> sep !in r[i]
  {
    if s == [] then [[]]
    else
      var rest := Split(s[1..], sep);
      if s[0] == sep then [[]] + rest
      else [[s[0]] + rest[0]] + rest[1..]
  }

  /** `pieces.join(sep)`, the inverse of `Split`. */
  function Join(pieces: seq<string>, sep: char): string
    requires |pieces| >= 1
  {
    if |pieces| == 1 then pieces[0] else pieces[0] + [sep] + Join(pieces[1..], sep)
  }

  /** Joining the pieces back with the separator restores the string. */
  lemma {:induction false} JoinSplit(s: string, sep: char)
    ensures Join(Split(s, sep), sep) == s
    decreases |s|
  {
    if s != [] {
      JoinSplit(s[1..], sep);
      var rest := Split(s[1..], sep);
      if s[0] == sep {
        assert ([[]] + rest)[1..] == rest;
      } else {
        var r := [[s[0]] + rest[0]] + rest[1..];
        if |rest| > 1 {
          assert r[1..] == rest[1..];
        }
      }
    }
  }

  lemma {:induction false} SplitWithoutSeparator(p: string, sep: char)
    requires sep !in p
    ensures Split(p, sep) == [p]
    decreases |p|
  {
    if p != [] {
      SplitWithoutSeparator(p[1..], sep);
      assert [p[0]] + p[1..] == p;
    }
  }

  lemma {:induction false} SplitAfterPiece(p: string, t: string, sep: char)
    requires sep !in p
    ensures Split(p + [sep] + t, sep) == [p] + Split(t, sep)
    decreases |p|
  {
    var s := p + [sep] + t;
    if p == [] {
      assert s[1..] == t;
    } else {
      assert s[1..] == p[1..] + [sep] + t;
      SplitAfterPiece(p[1..], t, sep);
      assert [p[0]] + p[1..] == p;
    }
  }

  /** Splitting pieces that hold no separator, once joined, gives them back. */
  lemma {:induction false} SplitJoin(pieces: seq<string>, sep: char)
    requires |pieces| >= 1
    requires forall i :: 0 <= i < |pieces| ==> sep !in pieces[i]
    ensures Split(Join(pieces, sep), sep) == pieces
    decreases |pieces|
  {
    if |pieces| == 1 {
      SplitWithoutSeparator(pieces[0], sep);
    } else {
      SplitJoin(pieces[1..], sep);
      SplitAfterPiece(pieces[0], Join(pieces[1..], sep), sep);
      assert [pieces[0]] + pieces[1..] == pieces;
    }
  }

  /** The pieces of two strings joined by a separator are the pieces of
      the first followed by the pieces of the second. */
  lemma {:induction false} SplitConcat(a: string, b: string, sep: char)
    ensures Split(a + [sep] + b, sep) == Split(a, sep) + Split(b, sep)
    decreases |a|
  {
    var s := a + [sep] + b;
    if a == [] {
      assert s[1..] == b;
    } else {
      assert s[0] == a[0] && s[1..] == a[1..] + [sep] + b;
      SplitConcat(a[1..], b, sep);
      var ra := Split(a[1..], sep);
      if a[0] != sep {
        var rest := ra + Split(b, sep);
        assert rest[0] == ra[0] && rest[1..] == ra[1..] + Split(b, sep);
      }
    }
  }

  predicate OnlySeparatorsOrWhitespace(s: string, sep: char)
  {
    forall j :: 0 <= j < |s| ==> s[j] == sep || IsWhitespace(s[j])
  }

  predicate AllPiecesWhitespace(pieces: seq<string>)
  {
    forall i :: 0 <= i < |pieces| ==> AllWhitespace(pieces[i])
  }

  lemma AllWhitespaceCons(c: char, t: string)
    ensures AllWhitespace([c] + t) <==> IsWhitespace(c) && AllWhitespace(t)
  {
    var s := [c] + t;
    if IsWhitespace(c) && AllWhitespace(t) {
      forall k | 0 <= k < |s| ensures IsWhitespace(s[k]) {
        if k > 0 { assert s[k] == t[k - 1]; }
      }
    }
    if AllWhitespace(s) {
      assert s[0] == c;
      forall k | 0 <= k < |t| ensures IsWhitespace(t[k]) {
        assert t[k] == s[k + 1];
      }
    }
  }

  lemma AllWhitespaceSnoc(t: string, c: char)
    requires AllWhitespace(t) && IsWhitespace(c)
    ensures AllWhitespace(t + [c])
  {
    var s := t + [c];
    forall k | 0 <= k < |s| ensures IsWhitespace(s[k]) {
      if k < |t| { assert s[k] == t[k]; }
    }
  }

  lemma OnlySeparatorsOrWhitespaceCons(s: string, sep: char)
    requires s != []
    ensures OnlySeparatorsOrWhitespace(s, sep)
        <==> (s[0] == sep || IsWhitespace(s[0])) && OnlySeparatorsOrWhitespace(s[1..], sep)
  {
    if (s[0] == sep || IsWhitespace(s[0])) && OnlySeparatorsOrWhitespace(s[1..], sep) {
      forall j | 0 <= j < |s| ensures s[j] == sep || IsWhitespace(s[j]) {
        if j > 0 { assert s[j] == s[1..][j - 1]; }
      }
    }
  }

  lemma AllPiecesWhitespaceCons(p: string, pieces: seq<string>)
    ensures AllPiecesWhitespace([p] + pieces) <==> AllWhitespace(p) && AllPiecesWhitespace(pieces)
  {
    var r := [p] + pieces;
    if AllWhitespace(p) && AllPiecesWhitespace(pieces) {
      forall i | 0 <= i < |r| ensures AllWhitespace(r[i]) {
        if i > 0 { assert r[i] == pieces[i - 1]; }
      }
    }
    if AllPiecesWhitespace(r) {
      assert r[0] == p;
      forall i | 0 <= i < |pieces| ensures AllWhitespace(pieces[i]) {
        assert pieces[i] == r[i + 1];
      }
    }
  }

  /** Every piece of the split is whitespace exactly when every character
      of the string is a separator or whitespace. */
  lemma {:induction false} SplitAllWhitespace(s: string, sep: char)
    ensures AllPiecesWhitespace(Split(s, sep)) <==> OnlySeparatorsOrWhitespace(s, sep)
    decreases |s|
  {
    if s != [] {
      SplitAllWhitespace(s[1..], sep);
      OnlySeparatorsOrWhitespaceCons(s, sep);
      var rest := Split(s[1..], sep);
      if s[0] == sep {
        assert Split(s, sep) == [[]] + rest;
        AllPiecesWhitespaceCons([], rest);
      } else {
        var head := [s[0]] + rest[0];
        assert Split(s, sep) == [head] + rest[1..];
        assert rest == [rest[0]] + rest[1..];
        AllPiecesWhitespaceCons(head, rest[1..]);
        AllPiecesWhitespaceCons(rest[0], rest[1..]);
        AllWhitespaceCons(s[0], rest[0]);
      }
    }
  }

  predicate IsPrefix(pre: string, s: string)
  {
    |pre| <= |s| && s[..|pre|] == pre
  }

  /** `sub` occurs in `s` starting at offset `i`. */
  predicate OccursAt(s: string, sub: string, i: int)
  {
    0 <= i && i + |sub| <= |s| && s[i..i + |sub|] == sub
  }

  /** `s.contains(sub)`: a plain substring test. The empty string is
      contained in every string, and nothing longer than `s` is. */
  predicate Contains(s: string, sub: string)
    ensures sub == [] ==> Contains(s, sub)
    ensures Contains(s, sub) ==> |sub| <= |s|
    decreases |s|
  {
    IsPrefix(sub, s) || (s != [] && Contains(s[1..], sub))
  }

  /** `Contains` holds exactly when `sub` occurs at some offset of `s`. */
  lemma {:induction false} ContainsAtOffset(s: string, sub: string)
    ensures Contains(s, sub) <==> exists i :: OccursAt(s, sub, i)
    decreases |s|
  {
    if IsPrefix(sub, s) {
      assert OccursAt(s, sub, 0);
    } else if s != [] {
      ContainsAtOffset(s[1..], sub);
      if Contains(s[1..], sub) {
        var i :| OccursAt(s[1..], sub, i);
        assert s[1..][i..i + |sub|] == s[i + 1..i + 1 + |sub|];
        assert OccursAt(s, sub, i + 1);
      }
      if exists i :: OccursAt(s, sub, i) {
        var i :| OccursAt(s, sub, i);
        assert i != 0;
        assert s[1..][i - 1..i - 1 + |sub|] == s[i..i + |sub|];
        assert OccursAt(s[1..], sub, i - 1);
      }
    }
  }
}
