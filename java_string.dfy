/**
 The three `java.lang.String` operations the keep-alive scan is built from:
 `split` on a one-character separator, `trim`, and `equalsIgnoreCase`
 against an ASCII literal. Strings are sequences of Unicode scalar values.
 */
module JavaString {
  import opened Sequences

  /** Every piece between occurrences of `sep`, empty ones included. */
  function Pieces(s: string, sep: char): (r: seq<string>)
    ensures |r| >= 1
  {
    if s == [] then [[]]
    else if s[0] == sep then [[]] + Pieces(s[1..], sep)
    else
      var p := Pieces(s[1..], sep);
      [[s[0]] + p[0]] + p[1..]
  }

  predicate SepFree(ps: seq<string>, sep: char) { forall i | 0 <= i < |ps| :: sep !in ps[i] }

  /** The pieces hold no separator, and joining them gives back the string. */
  lemma {:induction false} PiecesJoin(s: string, sep: char)
    ensures SepFree(Pieces(s, sep), sep)
    ensures Join(Pieces(s, sep), sep) == s
  {
    if s != [] {
      var p := Pieces(s[1..], sep);
      PiecesJoin(s[1..], sep);
      assert s == [s[0]] + s[1..];
      if s[0] != sep {
        JoinConsChar(s[0], p, sep);
      }
    }
  }

  /** The pieces put back together, one separator between neighbours. */
  function Join(ps: seq<string>, sep: char): string
  {
    if ps == [] then []
    else if |ps| == 1 then ps[0]
    else ps[0] + [sep] + Join(ps[1..], sep)
  }

  lemma {:induction false} JoinConsChar(c: char, ps: seq<string>, sep: char)
    requires |ps| >= 1
    ensures Join([[c] + ps[0]] + ps[1..], sep) == [c] + Join(ps, sep)
  {
    var qs := [[c] + ps[0]] + ps[1..];
    assert qs[1..] == ps[1..];
  }

  lemma {:induction false} JoinAppend(xs: seq<string>, ys: seq<string>, sep: char)
    requires |xs| >= 1 && |ys| >= 1
    ensures Join(xs + ys, sep) == Join(xs, sep) + [sep] + Join(ys, sep)
  {
    if |xs| > 1 {
      assert (xs + ys)[1..] == xs[1..] + ys;
      JoinAppend(xs[1..], ys, sep);
    }
  }

  /** A piece free of `sep` is kept whole at the front of whatever follows it. */
  lemma {:induction false} PiecesOfPrefix(x: string, y: string, sep: char)
    requires sep !in x
    ensures Pieces(x + y, sep) == [x + Pieces(y, sep)[0]] + Pieces(y, sep)[1..]
  {
    if x != [] {
      var s := x + y;
      assert s[0] == x[0] && x[0] in x;
      assert s[1..] == x[1..] + y;
      PiecesOfPrefix(x[1..], y, sep);
      var p := Pieces(s[1..], sep);
      assert p[0] == x[1..] + Pieces(y, sep)[0];
      assert p[1..] == Pieces(y, sep)[1..];
      assert Pieces(s, sep) == [[x[0]] + p[0]] + p[1..];
      assert [x[0]] + (x[1..] + Pieces(y, sep)[0]) == x + Pieces(y, sep)[0];
    } else {
      assert x + y == y && x + Pieces(y, sep)[0] == Pieces(y, sep)[0];
    }
  }

  /** Pieces is the inverse of Join: separator-free pieces are recovered exactly. */
  lemma {:induction false} PiecesOfJoin(ps: seq<string>, sep: char)
    requires |ps| >= 1
    requires SepFree(ps, sep)
    ensures Pieces(Join(ps, sep), sep) == ps
  {
    if |ps| == 1 {
      PiecesOfPrefix(ps[0], [], sep);
      assert ps[0] + [] == ps[0];
    } else {
      var rest := Join(ps[1..], sep);
      PiecesOfJoin(ps[1..], sep);
      PiecesOfPrefix(ps[0], [sep] + rest, sep);
      assert ([sep] + rest)[0] == sep && ([sep] + rest)[1..] == rest;
      assert Pieces([sep] + rest, sep) == [[]] + ps[1..];
      assert ps[0] + [] == ps[0];
      assert ps[0] + [sep] + rest == ps[0] + ([sep] + rest);
      assert ps == [ps[0]] + ps[1..];
    }
  }

  lemma {:induction false} SepFreeAppend(xs: seq<string>, ys: seq<string>, sep: char)
    requires SepFree(xs, sep) && SepFree(ys, sep)
    ensures SepFree(xs + ys, sep)
  {
    var ps := xs + ys;
    forall i | 0 <= i < |ps| ensures sep !in ps[i] {
      if i < |xs| {
        assert ps[i] == xs[i];
      } else {
        assert ps[i] == ys[i - |xs|];
      }
    }
  }

  /** Cutting at one separator splits the pieces into those of either side. */
  lemma {:induction false} PiecesAppend(v: string, w: string, sep: char)
    ensures Pieces(v + [sep] + w, sep) == Pieces(v, sep) + Pieces(w, sep)
  {
    var xs, ys := Pieces(v, sep), Pieces(w, sep);
    var ps := xs + ys;
    PiecesJoin(v, sep);
    PiecesJoin(w, sep);
    JoinAppend(xs, ys, sep);
    SepFreeAppend(xs, ys, sep);
    PiecesOfJoin(ps, sep);
  }

  /** Pieces with every trailing empty piece removed. */
  function DropTrailingEmpty(ps: seq<string>): seq<string>
  {
    if ps == [] then []
    else if ps[|ps| - 1] == [] then DropTrailingEmpty(ps[..|ps| - 1])
    else ps
  }

  /** What is dropped is a run of empty pieces at the end, and all of it. */
  lemma {:induction false} DropTrailingEmptyKeepsPrefix(ps: seq<string>)
    ensures DropTrailingEmpty(ps) <= ps
    ensures var r := DropTrailingEmpty(ps); r == [] || r[|r| - 1] != []
    ensures forall i | |DropTrailingEmpty(ps)| <= i < |ps| :: ps[i] == []
  {
    if ps != [] && ps[|ps| - 1] == [] {
      DropTrailingEmptyKeepsPrefix(ps[..|ps| - 1]);
    }
  }

  /** Removing trailing empties from a longer list never shortens the result for the prefix. */
  lemma {:induction false} DropTrailingEmptyPrefix(xs: seq<string>, ys: seq<string>)
    ensures DropTrailingEmpty(xs) <= DropTrailingEmpty(xs + ys)
  {
    DropTrailingEmptyKeepsPrefix(xs);
    if ys == [] {
      assert xs + ys == xs;
    } else if ys[|ys| - 1] == [] {
      assert (xs + ys)[..|xs + ys| - 1] == xs + ys[..|ys| - 1];
      DropTrailingEmptyPrefix(xs, ys[..|ys| - 1]);
    }
  }

  /**
   `s.split(",")` and `s.split("=")` in Java (a one-character pattern that is
   not a regular-expression metacharacter): with no separator the whole string
   is the only piece (so "" gives [""]); otherwise the pieces, less every
   trailing empty one (so "," gives none and "a=" gives ["a"]).
   */
  function Split(s: string, sep: char): seq<string>
  {
    if sep !in s then [s] else DropTrailingEmpty(Pieces(s, sep))
  }

  /**
   Split gives the whole string when there is no separator, and otherwise a
   prefix of the pieces that ends in a non-empty piece and leaves out only
   empty ones; no piece holds a separator.
   */
  lemma {:induction false} SplitPieces(s: string, sep: char)
    ensures sep !in s ==> Split(s, sep) == [s]
    ensures sep in s ==> Split(s, sep) <= Pieces(s, sep)
    ensures sep in s ==> var r := Split(s, sep); r == [] || r[|r| - 1] != []
    ensures sep in s ==> forall i | |Split(s, sep)| <= i < |Pieces(s, sep)| :: Pieces(s, sep)[i] == []
    ensures SepFree(Split(s, sep), sep)
  {
    PiecesJoin(s, sep);
    DropTrailingEmptyKeepsPrefix(Pieces(s, sep));
    if sep !in s {
      assert Split(s, sep) == [s];
    }
  }

  /** The pieces of a non-empty string come first among those of any extension of it past a separator. */
  lemma {:induction false} SplitExtend(v: string, w: string, sep: char)
    requires v != []
    ensures Split(v, sep) <= Split(v + [sep] + w, sep)
  {
    var s := v + [sep] + w;
    assert s[|v|] == sep;
    PiecesAppend(v, w, sep);
    DropTrailingEmptyPrefix(Pieces(v, sep), Pieces(w, sep));
    if sep !in v {
      PiecesOfJoin([v], sep);
    }
  }

  /** A separator at the very end leaves only the piece before it, and nothing when that piece is empty. */
  lemma {:induction false} SplitTrailingSeparator(x: string, sep: char)
    requires sep !in x
    ensures Split(x + [sep], sep) == if x == [] then [] else [x]
  {
    var s := x + [sep];
    var ps: seq<string> := [x, []];
    assert s[|x|] == sep;
    assert Join(ps, sep) == x + [sep] + [];
    assert x + [sep] + [] == s;
    PiecesOfJoin(ps, sep);
    assert ps[..1] == [x];
    assert DropTrailingEmpty(ps) == DropTrailingEmpty([x]);
    if x == [] {
      assert [x][..0] == [];
      assert DropTrailingEmpty([x]) == DropTrailingEmpty([]);
    }
  }

  /** The last piece of a string ending in a character other than the separator is not empty. */
  lemma {:induction false} LastPieceKept(s: string, sep: char)
    requires s != [] && s[|s| - 1] != sep
    ensures Pieces(s, sep)[|Pieces(s, sep)| - 1] != []
  {
    if |s| > 1 {
      LastPieceKept(s[1..], sep);
    }
  }

  /** A string that does not end in the separator keeps all of its pieces. */
  lemma {:induction false} SplitKeepsAllPieces(s: string, sep: char)
    requires sep in s && s[|s| - 1] != sep
    ensures Split(s, sep) == Pieces(s, sep)
  {
    LastPieceKept(s, sep);
  }

  /** Joining trailing empty pieces adds one separator per piece. */
  lemma {:induction false} JoinTrailingEmpty(ps: seq<string>, k: nat, sep: char)
    requires |ps| >= 1
    ensures Join(ps + seq(k, _ => []), sep) == Join(ps, sep) + seq(k, _ => sep)
  {
    if k == 0 {
      assert ps + seq(k, _ => []) == ps;
    } else {
      var shorter: seq<string> := ps + seq(k - 1, _ => []);
      assert ps + seq(k, _ => []) == shorter + [[]];
      JoinAppend(shorter, [[]], sep);
      JoinTrailingEmpty(ps, k - 1, sep);
      assert seq(k - 1, _ => sep) + [sep] == seq(k, _ => sep);
    }
  }

  /**
   A string splits into exactly the two pieces `[x, y]` when it is `x`, a
   separator, a non-empty `y`, and then nothing but separators.
   */
  lemma {:induction false} SplitTwoPieces(x: string, y: string, sep: char, k: nat)
    requires sep !in x && sep !in y && y != []
    ensures Split(x + [sep] + y + seq(k, _ => sep), sep) == [x, y]
  {
    var s := x + [sep] + y + seq(k, _ => sep);
    var ps: seq<string> := [x, y] + seq(k, _ => []);
    assert s[|x|] == sep;
    assert Join([x, y], sep) == x + [sep] + y;
    JoinTrailingEmpty([x, y], k, sep);
    PiecesOfJoin(ps, sep);
    var r := Split(s, sep);
    SplitPieces(s, sep);
    assert ps[1] == y;
    assert r == ps[..2];
  }

  /** Conversely, every string that splits into two pieces has that shape. */
  lemma {:induction false} SplitTwoPiecesShape(s: string, sep: char)
    requires |Split(s, sep)| == 2
    ensures var r := Split(s, sep);
      && r[1] != []
      && |s| >= |r[0]| + 1 + |r[1]|
      && s == r[0] + [sep] + r[1] + seq(|s| - |r[0]| - 1 - |r[1]|, _ => sep)
  {
    var r := Split(s, sep);
    SplitPieces(s, sep);
    PiecesJoin(s, sep);
    assert sep in s;
    var ps := Pieces(s, sep);
    var k := |ps| - 2;
    assert ps == r + seq(k, _ => []);
    JoinTrailingEmpty(r, k, sep);
    assert Join(r, sep) == r[0] + [sep] + r[1];
  }

  /** The characters `String.trim` removes: code points up to and including the space. */
  predicate IsTrimmed(c: char) { c <= ' ' }

  predicate AllTrimmed(s: string) { forall i | 0 <= i < |s| :: IsTrimmed(s[i]) }

  function TrimStart(s: string): (r: string)
    ensures |r| <= |s| && r == s[|s| - |r|..]
    ensures AllTrimmed(s[..|s| - |r|])
    ensures r == [] || !IsTrimmed(r[0])
  {
    if s != [] && IsTrimmed(s[0]) then
      var r := TrimStart(s[1..]);
      var k := |s| - |r|;
      assert s[1..][k - 1..] == s[k..];
      assert forall i | 1 <= i < k :: s[i] == s[1..][..k - 1][i - 1];
      r
    else s
  }

  function TrimEnd(s: string): (r: string)
    ensures |r| <= |s| && r == s[..|r|]
    ensures AllTrimmed(s[|r|..])
    ensures r == [] || !IsTrimmed(r[|r| - 1])
  {
    if s != [] && IsTrimmed(s[|s| - 1]) then TrimEnd(s[..|s| - 1]) else s
  }

  /** `s.trim()`: what is left after removing trimmed characters at both ends. */
  function Trim(s: string): (r: string)
    ensures |r| <= |s|
    ensures r == [] || (!IsTrimmed(r[0]) && !IsTrimmed(r[|r| - 1]))
  {
    var t := TrimStart(s);
    var r := TrimEnd(t);
    assert |r| <= |t| <= |s|;
    assert r != [] ==> r[0] == t[0] && !IsTrimmed(t[0]);
    r
  }

  lemma {:induction false} TrimStartPadded(pre: string, rest: string)
    requires AllTrimmed(pre)
    ensures TrimStart(pre + rest) == TrimStart(rest)
  {
    if pre != [] {
      assert (pre + rest)[0] == pre[0] && IsTrimmed(pre[0]);
      assert (pre + rest)[1..] == pre[1..] + rest;
      TrimStartPadded(pre[1..], rest);
      assert TrimStart(pre + rest) == TrimStart(pre[1..] + rest);
    } else {
      assert pre + rest == rest;
    }
  }

  lemma {:induction false} TrimEndPadded(rest: string, post: string)
    requires AllTrimmed(post)
    ensures TrimEnd(rest + post) == TrimEnd(rest)
  {
    if post != [] {
      var s := rest + post;
      assert s[|s| - 1] == post[|post| - 1] && IsTrimmed(post[|post| - 1]);
      assert s[..|s| - 1] == rest + post[..|post| - 1];
      TrimEndPadded(rest, post[..|post| - 1]);
      assert TrimEnd(s) == TrimEnd(rest + post[..|post| - 1]);
    } else {
      assert rest + post == rest;
    }
  }

  /** Trim removes exactly the padding around a core that starts and ends with a kept character. */
  lemma {:induction false} TrimPadded(pre: string, core: string, post: string)
    requires AllTrimmed(pre) && AllTrimmed(post)
    requires core == [] || (!IsTrimmed(core[0]) && !IsTrimmed(core[|core| - 1]))
    ensures Trim(pre + core + post) == core
  {
    AppendAssoc(pre, core, post);
    TrimStartPadded(pre, core + post);
    if core == [] {
      AppendEmpty(post);
      TrimEndPadded([], post);
    } else {
      TrimEndPadded(core, post);
    }
  }

  /**
   The case folding under which `equalsIgnoreCase` matches a character with an
   ASCII one: ASCII letters, plus the four non-ASCII characters whose upper or
   lower case is an ASCII letter (dotted and dotless i, the Kelvin sign, long s).
   */
  function FoldCase(c: char): (r: char)
    ensures 'A' <= c <= 'Z' ==> r as int == c as int + 32
    ensures c < 128 as char && !('A' <= c <= 'Z') ==> r == c
    ensures (r < 128 as char) == (c < 128 as char || c in {'\U{130}', '\U{131}', '\U{212A}', '\U{17F}'})
    ensures IsTrimmed(r) == IsTrimmed(c)
  {
    if 'A' <= c <= 'Z' then (c as int + 32) as char
    else if c == '\U{130}' || c == '\U{131}' then 'i'
    else if c == '\U{212A}' then 'k'
    else if c == '\U{17F}' then 's'
    else c
  }

  /**
   `c` is the lower-case ASCII letter `l`, its capital, or one of the
   non-ASCII characters whose Java upper or lower case is `l`.
   */
  predicate CaseVariant(c: char, l: char)
  {
    || c == l
    || c as int == l as int - 32
    || (l == 'i' && (c == '\U{130}' || c == '\U{131}'))
    || (l == 'k' && c == '\U{212A}')
    || (l == 's' && c == '\U{17F}')
  }

  predicate IsLowerWord(t: string) { forall i | 0 <= i < |t| :: 'a' <= t[i] <= 'z' }

  /** Folding a character gives the lower-case letter `l` exactly when the character is one of `l`'s case variants. */
  lemma {:induction false} FoldCaseToLetter(c: char, l: char)
    requires 'a' <= l <= 'z'
    ensures FoldCase(c) == l <==> CaseVariant(c, l)
  {
  }

  /**
   A string equals a lower-case ASCII word ignoring case exactly when it has
   the word's length and each character is a case variant of the word's
   letter at the same place.
   */
  lemma {:induction false} EqualsIgnoreCaseLowerWord(s: string, t: string)
    requires IsLowerWord(t)
    ensures EqualsIgnoreCase(s, t) <==> |s| == |t| && forall i | 0 <= i < |s| :: CaseVariant(s[i], t[i])
  {
    if |s| == |t| {
      forall i | 0 <= i < |s|
        ensures FoldCase(s[i]) == FoldCase(t[i]) <==> CaseVariant(s[i], t[i])
      {
        FoldCaseToLetter(s[i], t[i]);
      }
    }
  }

  /**
   `s.equalsIgnoreCase(t)`, exactly as Java decides it whenever `t` is ASCII
   (the only use here is against the literal "timeout").
   */
  predicate EqualsIgnoreCase(s: string, t: string)
  {
    |s| == |t| && forall i | 0 <= i < |s| :: FoldCase(s[i]) == FoldCase(t[i])
  }
}
