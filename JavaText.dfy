/** The java.lang.String operations the packer front-end relies on:
    `trim`, `split` on a single character, `split("\\s+")` and `replace(c, "")`. */
module JavaText {

  /** `String.trim` removes every leading and trailing character whose code is at most U+0020. */
  predicate IsTrimmable(c: char) {
    c <= ' '
  }

  /** The regular-expression class `\s` without the UNICODE_CHARACTER_CLASS flag: [ \t\n\x0B\f\r]. */
  predicate IsRegexSpace(c: char) {
    c == ' ' || c == '\t' || c == '\n' || c == '\U{000B}' || c == '\U{000C}' || c == '\r'
  }

  predicate HasNoSpace(s: string) {
    forall i | 0 <= i < |s| :: !IsRegexSpace(s[i])
  }

  // ---------------------------------------------------------------------------
  // trim

  /** Drops the longest prefix of trimmable characters. */
  function TrimStart(s: string): (r: string)
    ensures |r| <= |s| && r == s[|s| - |r|..]
    ensures forall i | 0 <= i < |s| - |r| :: IsTrimmable(s[i])
    ensures r == [] || !IsTrimmable(r[0])
  {
    if s != [] && IsTrimmable(s[0]) then TrimStart(s[1..]) else s
  }

  /** Drops the longest suffix of trimmable characters. */
  function TrimEnd(s: string): (r: string)
    ensures |r| <= |s| && r == s[..|r|]
    ensures forall i | |r| <= i < |s| :: IsTrimmable(s[i])
    ensures r == [] || !IsTrimmable(r[|r| - 1])
  {
    if s != [] && IsTrimmable(s[|s| - 1]) then TrimEnd(s[..|s| - 1]) else s
  }

  /** `String.trim`: the slice of `s` between the first and the last character above U+0020. */
  function Trim(s: string): (r: string)
    ensures r == [] <==> forall i | 0 <= i < |s| :: IsTrimmable(s[i])
    ensures r != [] ==> !IsTrimmable(r[0]) && !IsTrimmable(r[|r| - 1])
    ensures |r| <= |s|
  {
    var t := TrimStart(s);
    assert (forall i | 0 <= i < |s| :: IsTrimmable(s[i])) ==> t == [] by {
      if t != [] {
        assert t[0] == s[|s| - |t|];
      }
    }
    TrimEnd(t)
  }

  /** A string whose ends are already above U+0020 is left as it is. */
  lemma TrimKeeps(s: string)
    requires s == [] || (!IsTrimmable(s[0]) && !IsTrimmable(s[|s| - 1]))
    ensures Trim(s) == s
  {
  }

  /** Trimming twice is trimming once. */
  lemma TrimIdempotent(s: string)
    ensures Trim(Trim(s)) == Trim(s)
  {
    var r := Trim(s);
    TrimKeeps(r);
  }

  /** Trimming keeps the middle of the string as a slice, starting after the leading blanks. */
  lemma TrimIsSlice(s: string, k: nat)
    requires k == |s| - |TrimStart(s)|
    ensures k + |Trim(s)| <= |s| && Trim(s) == s[k..k + |Trim(s)|]
  {
    var t := TrimStart(s);
    var r := TrimEnd(t);
    assert Trim(s) == r;
    assert t == s[k..];
    SliceOfSuffix(s, k, |r|);
  }

  /** Everything trimming removes, before and after that slice, is trimmable. */
  lemma TrimRemovesOnlyTrimmable(s: string)
    ensures var k := |s| - |TrimStart(s)|; forall i | 0 <= i < k :: IsTrimmable(s[i])
    ensures var k := |s| - |TrimStart(s)|; forall i | k + |Trim(s)| <= i < |s| :: IsTrimmable(s[i])
  {
    var t := TrimStart(s);
    var k := |s| - |t|;
    var r := TrimEnd(t);
    assert Trim(s) == r;
    SuffixTrimmable(s, t, k, |r|);
  }

  /** Trimmable characters at the end of a suffix are trimmable characters at the end of the whole. */
  lemma SuffixTrimmable(s: string, t: string, k: nat, n: nat)
    requires k <= |s| && t == s[k..] && n <= |t|
    requires forall i | n <= i < |t| :: IsTrimmable(t[i])
    ensures forall i | k + n <= i < |s| :: IsTrimmable(s[i])
  {
    forall i | k + n <= i < |s|
      ensures IsTrimmable(s[i])
    {
      assert s[i] == t[i - k];
    }
  }

  lemma SliceOfSuffix(s: string, k: nat, n: nat)
    requires k + n <= |s|
    ensures s[k..][..n] == s[k..k + n]
  {
  }

  /** A trailing newline after visible ends is the only thing trimming removes. */
  lemma TrimDropsFinalNewline(s: string)
    requires s != [] && !IsTrimmable(s[0]) && !IsTrimmable(s[|s| - 1])
    ensures Trim(s + "\n") == s
  {
    var t := s + "\n";
    assert t[0] == s[0];
    assert TrimStart(t) == t;
    assert t[..|t| - 1] == s;
    assert TrimEnd(t) == TrimEnd(s) == s;
  }

  // ---------------------------------------------------------------------------
  // split on one character

  /** Every piece of `s` between occurrences of `c`, empty pieces included. */
  function Pieces(s: string, c: char): (r: seq<string>)
    ensures |r| >= 1
    ensures forall i | 0 <= i < |r| :: c !in r[i]
    ensures c !in s ==> r == [s]
  {
    if s == [] then [[]]
    else
      var rest := Pieces(s[1..], c);
      assert c !in s ==> c !in s[1..] && s == [s[0]] + s[1..];
      if s[0] == c then [[]] + rest else [[s[0]] + rest[0]] + rest[1..]
  }

  /** A character absent from the string is absent from every piece. */
  lemma {:induction false} PiecesKeepAbsence(s: string, c: char, x: char)
    requires x !in s
    ensures forall i | 0 <= i < |Pieces(s, c)| :: x !in Pieces(s, c)[i]
  {
    if s != [] {
      assert x !in s[1..] && s[0] != x;
      PiecesKeepAbsence(s[1..], c, x);
      var rest := Pieces(s[1..], c);
      if s[0] == c {
        assert forall i | 1 <= i < |rest| + 1 :: ([[]] + rest)[i] == rest[i - 1];
      } else {
        assert forall i | 1 <= i < |rest| :: ([[s[0]] + rest[0]] + rest[1..])[i] == rest[i];
      }
    }
  }

  /** Glues pieces back together with `c` between neighbours. */
  function Join(ps: seq<string>, c: char): string
    requires |ps| >= 1
  {
    if |ps| == 1 then ps[0] else ps[0] + [c] + Join(ps[1..], c)
  }

  /** Joining the pieces gives back the string. */
  lemma {:induction false} JoinPieces(s: string, c: char)
    ensures Join(Pieces(s, c), c) == s
  {
    if s != [] {
      var rest := Pieces(s[1..], c);
      JoinPieces(s[1..], c);
      if s[0] == c {
        assert ([[]] + rest)[1..] == rest;
      } else {
        var r := [[s[0]] + rest[0]] + rest[1..];
        if |rest| > 1 {
          assert r[1..] == rest[1..];
          assert Join(rest, c) == rest[0] + [c] + Join(rest[1..], c);
        }
      }
    }
  }

  /** Prefixing a piece free of `c` extends the first piece. */
  lemma {:induction false} PiecesPrefix(a: string, b: string, c: char)
    requires c !in a
    ensures Pieces(a + b, c) == [a + Pieces(b, c)[0]] + Pieces(b, c)[1..]
  {
    if a != [] {
      var p := Pieces(b, c);
      assert (a + b)[0] == a[0] && (a + b)[1..] == a[1..] + b;
      PiecesPrefix(a[1..], b, c);
      var rest := Pieces(a[1..] + b, c);
      assert rest == [a[1..] + p[0]] + p[1..];
      assert rest[0] == a[1..] + p[0] && rest[1..] == p[1..];
      assert [a[0]] + (a[1..] + p[0]) == a + p[0];
    } else {
      var p := Pieces(b, c);
      assert a + b == b && a + p[0] == p[0];
      assert [p[0]] + p[1..] == p;
    }
  }

  /** Splitting pieces that were joined gives back the pieces. */
  lemma {:induction false} PiecesJoin(ps: seq<string>, c: char)
    requires |ps| >= 1
    requires forall i | 0 <= i < |ps| :: c !in ps[i]
    ensures Pieces(Join(ps, c), c) == ps
  {
    if |ps| > 1 {
      var tail := Join(ps[1..], c);
      PiecesJoin(ps[1..], c);
      assert Join(ps, c) == ps[0] + ([c] + tail);
      PiecesPrefix(ps[0], [c] + tail, c);
      assert ([c] + tail)[0] == c && ([c] + tail)[1..] == tail;
      var q := Pieces([c] + tail, c);
      assert q == [[]] + ps[1..];
      assert q[0] == [] && q[1..] == ps[1..];
      assert ps[0] + q[0] == ps[0];
      assert [ps[0]] + ps[1..] == ps;
    }
  }

  /** Drops the empty pieces at the end, as `String.split` with limit 0 does. */
  function DropTrailingEmpty(ps: seq<string>): (r: seq<string>)
    ensures r <= ps
    ensures r == [] || r[|r| - 1] != []
    ensures forall i | |r| <= i < |ps| :: ps[i] == []
  {
    if ps != [] && ps[|ps| - 1] == [] then DropTrailingEmpty(ps[..|ps| - 1]) else ps
  }

  /** `s.split(String.valueOf(c))`: with no occurrence of `c` the whole string is the one piece;
      otherwise the pieces between occurrences with the trailing empty ones removed. */
  function Split(s: string, c: char): (r: seq<string>)
    ensures forall i | 0 <= i < |r| :: c !in r[i]
    ensures c !in s ==> r == [s]
    ensures c in s ==> r == [] || r[|r| - 1] != []
    ensures r <= Pieces(s, c)
    ensures forall i | |r| <= i < |Pieces(s, c)| :: Pieces(s, c)[i] == []
  {
    if c !in s then [s] else DropTrailingEmpty(Pieces(s, c))
  }

  /** A character absent from the string is absent from every piece of the split. */
  lemma SplitKeepsAbsence(s: string, c: char, x: char)
    requires x !in s
    ensures forall i | 0 <= i < |Split(s, c)| :: x !in Split(s, c)[i]
  {
    PiecesKeepAbsence(s, c, x);
  }

  /** Split is the inverse of Join on pieces free of `c` whose last piece is not dropped. */
  lemma SplitJoin(ps: seq<string>, c: char)
    requires |ps| >= 1
    requires forall i | 0 <= i < |ps| :: c !in ps[i]
    requires |ps| == 1 || ps[|ps| - 1] != []
    ensures Split(Join(ps, c), c) == ps
  {
    PiecesJoin(ps, c);
    if |ps| > 1 {
      assert c in Join(ps, c) by {
        assert Join(ps, c) == ps[0] + [c] + Join(ps[1..], c);
        assert Join(ps, c)[|ps[0]|] == c;
      }
    }
  }

  // ---------------------------------------------------------------------------
  // split on runs of whitespace

  function Flatten(ps: seq<string>): string {
    if ps == [] then [] else ps[0] + Flatten(ps[1..])
  }

  function WithoutSpaces(s: string): (r: string) {
    if s == [] then []
    else (if IsRegexSpace(s[0]) then [] else [s[0]]) + WithoutSpaces(s[1..])
  }

  /** The pieces of `s` between maximal runs of `\s` characters, empty leading and trailing pieces included. */
  function SpacePieces(s: string): (r: seq<string>)
    ensures |r| >= 1
    ensures forall i | 0 <= i < |r| :: HasNoSpace(r[i])
    ensures forall i | 0 < i < |r| - 1 :: r[i] != []
    ensures s != [] && !IsRegexSpace(s[0]) ==> r[0] != []
    ensures s != [] && !IsRegexSpace(s[|s| - 1]) ==> r[|r| - 1] != []
    ensures HasNoSpace(s) ==> r == [s]
  {
    if s == [] then [[]]
    else
      var rest := SpacePieces(s[1..]);
      assert HasNoSpace(s) ==> HasNoSpace(s[1..]) && s == [s[0]] + s[1..];
      if IsRegexSpace(s[0]) then
        if |s| > 1 && IsRegexSpace(s[1]) then rest else [[]] + rest
      else
        [[s[0]] + rest[0]] + rest[1..]
  }

  /** The pieces hold exactly the non-whitespace characters, in order. */
  lemma {:induction false} SpacePiecesFlatten(s: string)
    ensures Flatten(SpacePieces(s)) == WithoutSpaces(s)
  {
    if s != [] {
      var rest := SpacePieces(s[1..]);
      SpacePiecesFlatten(s[1..]);
      if IsRegexSpace(s[0]) {
        if !(|s| > 1 && IsRegexSpace(s[1])) {
          assert ([[]] + rest)[1..] == rest;
        }
      } else {
        var r := [[s[0]] + rest[0]] + rest[1..];
        assert r[1..] == rest[1..];
        assert Flatten(rest) == rest[0] + Flatten(rest[1..]);
      }
    }
  }

  /** `s.split("\\s+")`: with no whitespace the whole string is the one piece; otherwise the
      pieces between whitespace runs with the trailing empty ones removed. */
  function SplitOnSpaces(s: string): (r: seq<string>)
    ensures forall i | 0 <= i < |r| :: HasNoSpace(r[i])
    ensures HasNoSpace(s) ==> r == [s]
    ensures r <= SpacePieces(s)
    ensures forall i | |r| <= i < |SpacePieces(s)| :: SpacePieces(s)[i] == []
    ensures !HasNoSpace(s) ==> r == [] || r[|r| - 1] != []
  {
    if HasNoSpace(s) then [s] else DropTrailingEmpty(SpacePieces(s))
  }

  lemma {:induction false} FlattenAppend(a: seq<string>, b: seq<string>)
    ensures Flatten(a + b) == Flatten(a) + Flatten(b)
  {
    if a != [] {
      assert (a + b)[0] == a[0] && (a + b)[1..] == a[1..] + b;
      FlattenAppend(a[1..], b);
    } else {
      assert a + b == b;
    }
  }

  lemma {:induction false} FlattenEmpties(ps: seq<string>)
    requires forall i | 0 <= i < |ps| :: ps[i] == []
    ensures Flatten(ps) == []
  {
    if ps != [] {
      FlattenEmpties(ps[1..]);
    }
  }

  /** Flattening ignores empty pieces at the end. */
  lemma FlattenPrefix(ps: seq<string>, k: nat)
    requires k <= |ps|
    requires forall i | k <= i < |ps| :: ps[i] == []
    ensures Flatten(ps[..k]) == Flatten(ps)
  {
    assert ps == ps[..k] + ps[k..];
    FlattenAppend(ps[..k], ps[k..]);
    FlattenEmpties(ps[k..]);
  }

  /** Whatever the string, its tokens hold exactly its non-whitespace characters, in order:
      the trailing empty pieces `split` drops hold none. */
  lemma SplitOnSpacesFlatten(s: string)
    ensures Flatten(SplitOnSpaces(s)) == WithoutSpaces(s)
  {
    var ps := SpacePieces(s);
    var r := SplitOnSpaces(s);
    SpacePiecesFlatten(s);
    if HasNoSpace(s) {
      assert r == ps;
    } else {
      assert ps[..|r|] == r;
      FlattenPrefix(ps, |r|);
    }
  }

  /** On a non-empty string whose ends are not whitespace (a trimmed string is one), the tokens
      are non-empty, free of whitespace, and together hold exactly the non-whitespace characters. */
  lemma TokensOfTrimmed(s: string)
    requires s != [] && !IsRegexSpace(s[0]) && !IsRegexSpace(s[|s| - 1])
    ensures forall i | 0 <= i < |SplitOnSpaces(s)| :: SplitOnSpaces(s)[i] != []
    ensures SplitOnSpaces(s) == SpacePieces(s)
    ensures Flatten(SplitOnSpaces(s)) == WithoutSpaces(s)
  {
    SpacePiecesFlatten(s);
    var ps := SpacePieces(s);
    var r := SplitOnSpaces(s);
    assert ps[|ps| - 1] != [];
    assert |r| == |ps|;
  }

  /** A no-space prefix extends the first piece. */
  lemma {:induction false} SpacePiecesPrefix(a: string, b: string)
    requires HasNoSpace(a)
    ensures SpacePieces(a + b) == [a + SpacePieces(b)[0]] + SpacePieces(b)[1..]
  {
    if a != [] {
      var p := SpacePieces(b);
      var ab := a + b;
      var tail := a[1..];
      assert ab[0] == a[0] && !IsRegexSpace(a[0]);
      assert ab[1..] == tail + b;
      assert HasNoSpace(tail) by {
        assert forall i | 0 <= i < |tail| :: tail[i] == a[i + 1];
      }
      SpacePiecesPrefix(tail, b);
      var rest := SpacePieces(tail + b);
      assert SpacePieces(ab) == [[a[0]] + rest[0]] + rest[1..];
      ConsAppend(a, p[0]);
    } else {
      var p := SpacePieces(b);
      assert a + b == b && a + p[0] == p[0];
      assert [p[0]] + p[1..] == p;
    }
  }

  /** Putting the head back in front of the tail. */
  lemma ConsAppend(a: string, x: string)
    requires a != []
    ensures [a[0]] + (a[1..] + x) == a + x
  {
    assert a == [a[0]] + a[1..];
  }

  /** A non-empty run of regex whitespace, as `\\s+` matches it. */
  predicate IsSpaceRun(w: string) {
    w != [] && forall i | 0 <= i < |w| :: IsRegexSpace(w[i])
  }

  /** Tokens with the runs `ws` between them: `ts[0] + ws[0] + ts[1] + ... + ts[|ts| - 1]`. */
  function JoinRuns(ts: seq<string>, ws: seq<string>): string
    requires |ts| >= 1 && |ws| == |ts| - 1
  {
    if |ts| == 1 then ts[0] else ts[0] + ws[0] + JoinRuns(ts[1..], ws[1..])
  }

  /** The one-character runs that make JoinRuns a join on single spaces. */
  function Blanks(n: nat): (ws: seq<string>)
    ensures |ws| == n && forall i | 0 <= i < n :: ws[i] == " "
  {
    seq(n, _ => " ")
  }

  /** A run of whitespace before a visible character closes the piece before it, however long. */
  lemma {:induction false} SpacePiecesAfterRun(w: string, rest: string)
    requires IsSpaceRun(w) && rest != [] && !IsRegexSpace(rest[0])
    ensures SpacePieces(w + rest) == [[]] + SpacePieces(rest)
  {
    var s := w + rest;
    assert s[0] == w[0] && s[1..] == w[1..] + rest;
    if |w| == 1 {
      assert s[1..] == rest && s[1] == rest[0];
    } else {
      assert s[1] == w[1];
      SpacePiecesAfterRun(w[1..], rest);
    }
  }

  /** Splitting tokens joined by whitespace runs of any length and kind gives back the tokens. */
  lemma {:induction false} SpacePiecesJoinRuns(ts: seq<string>, ws: seq<string>)
    requires |ts| >= 1 && |ws| == |ts| - 1
    requires forall i | 0 <= i < |ts| :: ts[i] != [] && HasNoSpace(ts[i])
    requires forall i | 0 <= i < |ws| :: IsSpaceRun(ws[i])
    ensures SpacePieces(JoinRuns(ts, ws)) == ts
  {
    if |ts| > 1 {
      var tail := JoinRuns(ts[1..], ws[1..]);
      SpacePiecesJoinRuns(ts[1..], ws[1..]);
      JoinRunsStarts(ts[1..], ws[1..]);
      var u := ws[0] + tail;
      assert JoinRuns(ts, ws) == ts[0] + u;
      SpacePiecesPrefix(ts[0], u);
      SpacePiecesAfterRun(ws[0], tail);
      var q := SpacePieces(u);
      assert q[0] == [] && q[1..] == ts[1..];
      assert ts[0] + q[0] == ts[0];
      assert [ts[0]] + ts[1..] == ts;
    }
  }

  lemma JoinRunsStarts(ts: seq<string>, ws: seq<string>)
    requires |ts| >= 1 && |ws| == |ts| - 1 && ts[0] != []
    ensures JoinRuns(ts, ws) != [] && JoinRuns(ts, ws)[0] == ts[0][0]
  {
    if |ts| > 1 {
      assert JoinRuns(ts, ws) == ts[0] + (ws[0] + JoinRuns(ts[1..], ws[1..]));
    }
  }

  /** `split("\\s+")` is the inverse of joining non-empty, whitespace-free tokens with runs of
      whitespace: tabs, several blanks or line breaks between tokens all read the same. */
  lemma SplitOnSpacesJoinRuns(ts: seq<string>, ws: seq<string>)
    requires |ts| >= 1 && |ws| == |ts| - 1
    requires forall i | 0 <= i < |ts| :: ts[i] != [] && HasNoSpace(ts[i])
    requires forall i | 0 <= i < |ws| :: IsSpaceRun(ws[i])
    ensures SplitOnSpaces(JoinRuns(ts, ws)) == ts
  {
    SpacePiecesJoinRuns(ts, ws);
    if |ts| > 1 {
      var s := JoinRuns(ts, ws);
      assert s == ts[0] + ws[0] + JoinRuns(ts[1..], ws[1..]);
      assert s[|ts[0]|] == ws[0][0];
    }
  }

  /** Joining on single blanks is the case of JoinRuns where every run is one space. */
  lemma {:induction false} JoinIsJoinRuns(ts: seq<string>)
    requires |ts| >= 1
    ensures Join(ts, ' ') == JoinRuns(ts, Blanks(|ts| - 1))
  {
    if |ts| > 1 {
      JoinIsJoinRuns(ts[1..]);
      assert Blanks(|ts| - 1)[1..] == Blanks(|ts| - 2);
      assert Blanks(|ts| - 1)[0] == " " == [' '];
    }
  }

  /** `split("\\s+")` is the inverse of joining non-empty, whitespace-free tokens with one space. */
  lemma SplitOnSpacesJoin(ts: seq<string>)
    requires |ts| >= 1
    requires forall i | 0 <= i < |ts| :: ts[i] != [] && HasNoSpace(ts[i])
    ensures SplitOnSpaces(Join(ts, ' ')) == ts
  {
    JoinIsJoinRuns(ts);
    SplitOnSpacesJoinRuns(ts, Blanks(|ts| - 1));
  }

  // ---------------------------------------------------------------------------
  // replace(c, "")

  /** `s.replace(String.valueOf(c), "")`: every occurrence of `c` removed, the rest kept. */
  function RemoveAll(s: string, c: char): (r: string)
    ensures c !in r
    ensures c !in s ==> r == s
  {
    if s == [] then []
    else
      var rest := RemoveAll(s[1..], c);
      assert s == [s[0]] + s[1..];
      (if s[0] == c then [] else [s[0]]) + rest
  }

  /** Removal keeps every other character as often as it occurs. */
  lemma {:induction false} RemoveAllKeepsOthers(s: string, c: char)
    ensures forall x | x != c :: multiset(RemoveAll(s, c))[x] == multiset(s)[x]
  {
    if s != [] {
      RemoveAllKeepsOthers(s[1..], c);
      assert s == [s[0]] + s[1..];
    }
  }

  /** Removal works piece by piece. */
  lemma {:induction false} RemoveAllAppend(a: string, b: string, c: char)
    ensures RemoveAll(a + b, c) == RemoveAll(a, c) + RemoveAll(b, c)
  {
    var ab := a + b;
    if a != [] {
      assert ab[0] == a[0] && ab[1..] == a[1..] + b;
      RemoveAllAppend(a[1..], b, c);
      var head := if a[0] == c then [] else [a[0]];
      assert RemoveAll(ab, c) == head + (RemoveAll(a[1..], c) + RemoveAll(b, c));
      assert RemoveAll(a, c) == head + RemoveAll(a[1..], c);
    } else {
      assert ab == b;
    }
  }
}
