/**
 * Python's `str.split()` with no argument (split on runs of whitespace,
 * dropping empty words) and `" ".join(words)`. The whitespace set is stated
 * outright in `IsSpace`: the code points Python's `str.isspace` accepts.
 */
module Whitespace {
  import Strings

  /** U+0009..U+000D, U+001C..U+0020, U+0085, U+00A0, U+1680, U+2000..U+200A, U+2028, U+2029, U+202F, U+205F, U+3000. */
  predicate IsSpace(c: char)
  {
    var n := c as int;
    (9 <= n <= 13) || (28 <= n <= 32) || n == 0x85 || n == 0xA0 || n == 0x1680
    || (0x2000 <= n <= 0x200A) || n == 0x2028 || n == 0x2029 || n == 0x202F
    || n == 0x205F || n == 0x3000
  }

  predicate NoSpace(w: string)
  {
    forall i :: 0 <= i < |w| ==> !IsSpace(w[i])
  }

  /** A word of `str.split()`: non-empty, no whitespace. */
  predicate IsWord(w: string)
  {
    w != [] && NoSpace(w)
  }

  predicate AllWords(ws: seq<string>)
  {
    forall i :: 0 <= i < |ws| ==> IsWord(ws[i])
  }

  /** Length of the run of non-whitespace characters that starts `s`. */
  function WordLen(s: string): (n: nat)
    ensures n <= |s|
    decreases |s|
  {
    if s == [] || IsSpace(s[0]) then 0 else 1 + WordLen(s[1..])
  }

  /** The run `WordLen` measures has no whitespace and stops at whitespace or the end. */
  lemma {:induction false} WordLenSpec(s: string)
    ensures NoSpace(s[..WordLen(s)])
    ensures WordLen(s) < |s| ==> IsSpace(s[WordLen(s)])
    decreases |s|
  {
    if s != [] && !IsSpace(s[0]) {
      WordLenSpec(s[1..]);
      var n := WordLen(s);
      assert s[..n] == [s[0]] + s[1..][..n - 1];
    }
  }

  /** `s.split()`. */
  function Words(s: string): seq<string>
    decreases |s|
  {
    if s == [] then []
    else if IsSpace(s[0]) then Words(s[1..])
    else
      var n := WordLen(s);
      [s[..n]] + Words(s[n..])
  }

  /** `str.split()` yields only words: non-empty and free of whitespace. */
  lemma {:induction false} WordsAreWords(s: string)
    ensures AllWords(Words(s))
    decreases |s|
  {
    if s != [] {
      if IsSpace(s[0]) {
        WordsAreWords(s[1..]);
      } else {
        var n := WordLen(s);
        WordLenSpec(s);
        WordsAreWords(s[n..]);
      }
    }
  }

  /** `" ".join(s.split())`: runs of whitespace collapsed to one space, ends trimmed. */
  function Collapse(s: string): string
  {
    Strings.Join(Words(s), ' ')
  }

  /**
   * The shape `Collapse` produces: the only whitespace is a single space,
   * never first, never last, never next to another whitespace character.
   */
  predicate Normalized(s: string)
  {
    forall i :: 0 <= i < |s| && IsSpace(s[i]) ==>
      s[i] == ' ' && 0 < i < |s| - 1 && !IsSpace(s[i + 1])
  }

  /** The non-whitespace characters of `s`, in order. */
  function NonSpace(s: string): string
    decreases |s|
  {
    if s == [] then [] else (if IsSpace(s[0]) then [] else [s[0]]) + NonSpace(s[1..])
  }

  /** `NonSpace` keeps exactly the non-whitespace characters. */
  lemma {:induction false} NonSpaceChars(s: string)
    ensures forall c :: c in NonSpace(s) <==> c in s && !IsSpace(c)
    decreases |s|
  {
    if s != [] {
      NonSpaceChars(s[1..]);
      assert s == [s[0]] + s[1..];
    }
  }

  function Concat(ws: seq<string>): string
  {
    if ws == [] then [] else ws[0] + Concat(ws[1..])
  }

  lemma {:induction false} WordLenAppend(w: string, y: string)
    requires NoSpace(w)
    ensures WordLen(w + y) == |w| + WordLen(y)
    decreases |w|
  {
    if w == [] {
      assert w + y == y;
    } else {
      assert (w + y)[0] == w[0];
      assert (w + y)[1..] == w[1..] + y;
      WordLenAppend(w[1..], y);
    }
  }

  /** Joining words with single spaces gives a normalized string that starts and ends with a word character. */
  lemma {:induction false} JoinNormalized(ws: seq<string>)
    requires AllWords(ws)
    ensures Normalized(Strings.Join(ws, ' '))
    ensures ws != [] ==> var j := Strings.Join(ws, ' ');
      j != [] && !IsSpace(j[0]) && !IsSpace(j[|j| - 1])
    decreases |ws|
  {
    if |ws| > 1 {
      var w, j := ws[0], Strings.Join(ws[1..], ' ');
      JoinNormalized(ws[1..]);
      var all := w + [' '] + j;
      assert Strings.Join(ws, ' ') == all;
      forall i | 0 <= i < |all| && IsSpace(all[i])
        ensures all[i] == ' ' && 0 < i < |all| - 1 && !IsSpace(all[i + 1])
      {
        if i < |w| {
          assert false;
        } else if i == |w| {
          assert all[i + 1] == j[0];
        } else {
          assert all[i] == j[i - |w| - 1];
          if i + 1 < |all| {
            assert all[i + 1] == j[i - |w|];
          }
        }
      }
      assert all[0] == w[0] && all[|all| - 1] == j[|j| - 1];
    }
  }

  /** Splitting words joined by single spaces gives back the words. */
  lemma {:induction false} WordsJoin(ws: seq<string>)
    requires AllWords(ws)
    ensures Words(Strings.Join(ws, ' ')) == ws
    decreases |ws|
  {
    if ws == [] {
    } else if |ws| == 1 {
      var w := ws[0];
      WordLenAppend(w, []);
      assert w + [] == w;
      assert w[..|w|] == w && w[|w|..] == [];
    } else {
      var w, j := ws[0], Strings.Join(ws[1..], ' ');
      var all := w + ([' '] + j);
      assert Strings.Join(ws, ' ') == all;
      WordLenAppend(w, [' '] + j);
      assert WordLen(all) == |w|;
      assert all[0] == w[0];
      assert all[..|w|] == w && all[|w|..] == [' '] + j;
      assert ([' '] + j)[1..] == j;
      WordsJoin(ws[1..]);
      assert Words(all) == [w] + Words([' '] + j);
    }
  }

  /** Collapsing twice is collapsing once. */
  lemma CollapseIdempotent(s: string)
    ensures Collapse(Collapse(s)) == Collapse(s)
  {
    WordsAreWords(s);
    WordsJoin(Words(s));
  }

  lemma {:induction false} NonSpaceAppend(a: string, b: string)
    ensures NonSpace(a + b) == NonSpace(a) + NonSpace(b)
    decreases |a|
  {
    if a == [] {
      assert a + b == b;
    } else {
      assert (a + b)[0] == a[0];
      assert (a + b)[1..] == a[1..] + b;
      NonSpaceAppend(a[1..], b);
    }
  }

  lemma {:induction false} NonSpaceOfWord(w: string)
    requires NoSpace(w)
    ensures NonSpace(w) == w
    decreases |w|
  {
    if w != [] {
      NonSpaceOfWord(w[1..]);
      assert w == [w[0]] + w[1..];
    }
  }

  /** The words of `s`, run together, are exactly its non-whitespace characters. */
  lemma {:induction false} WordsKeepText(s: string)
    ensures Concat(Words(s)) == NonSpace(s)
    decreases |s|
  {
    if s != [] {
      if IsSpace(s[0]) {
        WordsKeepText(s[1..]);
      } else {
        var n := WordLen(s);
        WordsKeepText(s[n..]);
        assert s == s[..n] + s[n..];
        NonSpaceAppend(s[..n], s[n..]);
        WordLenSpec(s);
        NonSpaceOfWord(s[..n]);
        assert Concat(Words(s)) == s[..n] + Concat(Words(s[n..]));
      }
    }
  }

  lemma {:induction false} JoinKeepsText(ws: seq<string>)
    requires AllWords(ws)
    ensures NonSpace(Strings.Join(ws, ' ')) == Concat(ws)
    decreases |ws|
  {
    if |ws| == 1 {
      NonSpaceOfWord(ws[0]);
      assert Concat(ws) == ws[0] + [];
    } else if |ws| > 1 {
      var w, j := ws[0], Strings.Join(ws[1..], ' ');
      JoinKeepsText(ws[1..]);
      NonSpaceOfWord(w);
      NonSpaceAppend(w, [' '] + j);
      NonSpaceAppend([' '], j);
      assert NonSpace([' ']) == [];
      assert Strings.Join(ws, ' ') == w + ([' '] + j);
    }
  }

  /**
   * What `Collapse` does and no more: the result is normalized, it has the
   * same words as the input (so words stay apart), it keeps every
   * non-whitespace character in order, and it is empty exactly when the input
   * is all whitespace.
   */
  lemma CollapseSpec(s: string)
    ensures Normalized(Collapse(s))
    ensures Words(Collapse(s)) == Words(s)
    ensures NonSpace(Collapse(s)) == NonSpace(s)
    ensures Collapse(s) == [] <==> NonSpace(s) == []
  {
    var ws := Words(s);
    WordsAreWords(s);
    WordsJoin(ws);
    JoinNormalized(ws);
    JoinKeepsText(ws);
    WordsKeepText(s);
    var c := Collapse(s);
    if c != [] {
      assert !IsSpace(c[0]);
      assert c == [c[0]] + c[1..];
      assert NonSpace(c) != [];
    }
  }

  /** A string already in normalized form is left alone. */
  lemma {:induction false} CollapseNormalized(s: string)
    requires Normalized(s)
    ensures Collapse(s) == s
    ensures s != [] ==> Words(s) != []
    decreases |s|
  {
    if s != [] {
      assert !IsSpace(s[0]);
      var n := WordLen(s);
      assert n > 0;
      if n == |s| {
        assert s[..n] == s && s[n..] == [];
      } else {
        var rest := s[n + 1..];
        WordLenSpec(s);
        assert s[n..][1..] == rest;
        assert IsSpace(s[n]) && n < |s| - 1;
        assert Words(s[n..]) == Words(rest);
        forall i | 0 <= i < |rest| && IsSpace(rest[i])
          ensures rest[i] == ' ' && 0 < i < |rest| - 1 && !IsSpace(rest[i + 1])
        {
          assert rest[i] == s[n + 1 + i];
          assert !IsSpace(s[n + 1]);
        }
        CollapseNormalized(rest);
        assert Words(s) == [s[..n]] + Words(rest);
        assert Strings.Join(Words(s), ' ') == s[..n] + [' '] + rest;
        assert s == s[..n] + [' '] + rest;
      }
    }
  }
}
