/** JavaScript string primitives the alias editor relies on (the `\s` class and
    `String.prototype.trim`), and the model's view of a file as `\n`-separated
    lines. */
module Text {

  /** JavaScript's WhiteSpace and LineTerminator characters: the `\s` class of a
      regular expression, and what `trim()` removes. */
  predicate IsSpace(c: char) {
    c == '\t' || c == '\n' || c == '\U{B}' || c == '\U{C}' || c == '\r' || c == ' '
    || c == '\U{A0}' || c == '\U{1680}' || ('\U{2000}' <= c <= '\U{200A}')
    || c == '\U{2028}' || c == '\U{2029}' || c == '\U{202F}' || c == '\U{205F}'
    || c == '\U{3000}' || c == '\U{FEFF}'
  }

  predicate IsBlank(s: string) {
    forall i :: 0 <= i < |s| ==> IsSpace(s[i])
  }

  lemma BlankCons(c: char, s: string)
    requires IsSpace(c) && IsBlank(s)
    ensures IsBlank([c] + s)
  {
  }

  lemma BlankSnoc(s: string, c: char)
    requires IsBlank(s) && IsSpace(c)
    ensures IsBlank(s + [c])
  {
  }

  function TrimStart(s: string): (r: string)
    ensures |r| <= |s| && r == s[|s| - |r|..]
    ensures IsBlank(s[..|s| - |r|])
    ensures r == [] || !IsSpace(r[0])
    decreases |s|
  {
    if |s| > 0 && IsSpace(s[0]) then
      var r := TrimStart(s[1..]);
      BlankCons(s[0], s[1..][..|s| - 1 - |r|]);
      assert s[..|s| - |r|] == [s[0]] + s[1..][..|s| - 1 - |r|];
      r
    else s
  }

  function TrimEnd(s: string): (r: string)
    ensures |r| <= |s| && r == s[..|r|]
    ensures IsBlank(s[|r|..])
    ensures r == [] || !IsSpace(r[|r| - 1])
    decreases |s|
  {
    if |s| > 0 && IsSpace(s[|s| - 1]) then
      var r := TrimEnd(s[..|s| - 1]);
      BlankSnoc(s[..|s| - 1][|r|..], s[|s| - 1]);
      assert s[|r|..] == s[..|s| - 1][|r|..] + [s[|s| - 1]];
      r
    else s
  }

  /** `s.trim()` */
  function Trim(s: string): string {
    TrimEnd(TrimStart(s))
  }

  /** `!s.trim()` holds exactly for the strings made only of white space. */
  lemma TrimEmptyIffBlank(s: string)
    ensures Trim(s) == [] <==> IsBlank(s)
  {
    var t := TrimStart(s);
    if Trim(s) == [] {
      assert IsBlank(t[0..]);
      assert s == s[..|s| - |t|] + t;
    }
  }

  lemma {:induction false} TrimStartSkipsSpace(w: string, s: string)
    requires IsBlank(w)
    ensures TrimStart(w + s) == TrimStart(s)
    decreases |w|
  {
    if w != [] {
      var ws := w + s;
      assert ws[0] == w[0] && IsSpace(w[0]);
      assert ws[1..] == w[1..] + s;
      TrimStartSkipsSpace(w[1..], s);
    } else {
      assert w + s == s;
    }
  }

  /** Leading white space does not survive `trim()`. */
  lemma TrimSkipsLeadingSpace(w: string, s: string)
    requires IsBlank(w)
    ensures Trim(w + s) == Trim(s)
  {
    TrimStartSkipsSpace(w, s);
  }

  /** The index of the first `c` in `s`, or `|s|` when there is none. */
  function IndexOf(s: string, c: char): (k: nat)
    ensures k <= |s|
    ensures k < |s| ==> s[k] == c
    ensures forall j :: 0 <= j < k ==> s[j] != c
    decreases |s|
  {
    if s == [] then 0 else if s[0] == c then 0 else 1 + IndexOf(s[1..], c)
  }

  /** The first `c` of `s` is at index `e`. */
  lemma IndexOfAt(s: string, c: char, e: nat)
    requires e < |s| && s[e] == c
    requires forall j :: 0 <= j < e ==> s[j] != c
    ensures IndexOf(s, c) == e
  {
  }

  /** The `\n`-separated lines of a text, the units on which the model reads the
      `m`-flag patterns of the editor. There is always at least one line. */
  function Lines(s: string): (ls: seq<string>)
    ensures |ls| >= 1
    decreases |s|
  {
    if s == [] then [""]
    else
      var rest := Lines(s[1..]);
      if s[0] == '\n' then [""] + rest
      else [[s[0]] + rest[0]] + rest[1..]
  }

  /** The text whose `\n`-separated lines are `ls`: the inverse of `Lines`. */
  function Join(ls: seq<string>): string
    requires |ls| >= 1
    decreases |ls|
  {
    if |ls| == 1 then ls[0] else ls[0] + "\n" + Join(ls[1..])
  }

  predicate NoNewlines(ls: seq<string>) {
    forall i :: 0 <= i < |ls| ==> '\n' !in ls[i]
  }

  /** No line holds a `\n`. */
  lemma {:induction false} LinesHaveNoNewline(s: string)
    ensures NoNewlines(Lines(s))
    decreases |s|
  {
    if s != [] {
      LinesHaveNoNewline(s[1..]);
      var rest := Lines(s[1..]);
      if s[0] != '\n' {
        assert '\n' !in [s[0]] + rest[0];
        assert Lines(s)[1..] == rest[1..];
      }
    }
  }

  /** Splitting and joining again gives back the file. */
  lemma {:induction false} JoinLines(s: string)
    ensures Join(Lines(s)) == s
    decreases |s|
  {
    if s != [] {
      JoinLines(s[1..]);
      var rest := Lines(s[1..]);
      if s[0] != '\n' && |rest| > 1 {
        assert Lines(s)[1..] == rest[1..];
      }
    }
  }

  lemma {:induction false} LinesOfOneLine(a: string)
    requires '\n' !in a
    ensures Lines(a) == [a]
  {
    if a != [] {
      LinesOfOneLine(a[1..]);
      assert a[0] != '\n';
      assert [a[0]] + a[1..] == a;
    }
  }

  lemma {:induction false} LinesCons(a: string, b: string)
    requires '\n' !in a
    ensures Lines(a + "\n" + b) == [a] + Lines(b)
  {
    if a == [] {
      assert (a + "\n" + b)[1..] == b;
    } else {
      assert (a + "\n" + b)[1..] == a[1..] + "\n" + b;
      LinesCons(a[1..], b);
      assert [a[0]] + a[1..] == a;
    }
  }

  /** Joining lines that hold no `\n` and splitting again gives back the lines. */
  lemma {:induction false} LinesJoin(ls: seq<string>)
    requires |ls| >= 1 && NoNewlines(ls)
    ensures Lines(Join(ls)) == ls
    decreases |ls|
  {
    if |ls| == 1 {
      LinesOfOneLine(ls[0]);
    } else {
      LinesCons(ls[0], Join(ls[1..]));
      LinesJoin(ls[1..]);
    }
  }

  lemma {:induction false} JoinAppend(a: seq<string>, b: seq<string>)
    requires |a| >= 1 && |b| >= 1
    ensures Join(a + b) == Join(a) + "\n" + Join(b)
    decreases |a|
  {
    if |a| == 1 {
      assert (a + b)[1..] == b;
    } else {
      assert (a + b)[1..] == a[1..] + b;
      JoinAppend(a[1..], b);
    }
  }

  /** Appending `"\n" + b` to a file appends the lines of `b` to its lines. */
  lemma LinesAppend(a: string, b: string)
    ensures Lines(a + "\n" + b) == Lines(a) + Lines(b)
  {
    JoinLines(a);
    JoinLines(b);
    JoinAppend(Lines(a), Lines(b));
    LinesHaveNoNewline(a);
    LinesHaveNoNewline(b);
    LinesJoin(Lines(a) + Lines(b));
  }

  /** The text of a file in front of line `i`, including the `\n` that ends line `i - 1`. */
  function Before(ls: seq<string>, i: nat): string
    requires i < |ls|
  {
    if i == 0 then "" else Join(ls[..i]) + "\n"
  }

  /** The text of a file after line `i`, including the `\n` that ends line `i`. */
  function After(ls: seq<string>, i: nat): string
    requires i < |ls|
  {
    if i + 1 == |ls| then "" else "\n" + Join(ls[i + 1..])
  }

  lemma JoinFirstLine(ls: seq<string>)
    requires |ls| >= 1
    ensures Join(ls) == ls[0] + After(ls, 0)
  {
  }

  lemma JoinFromLine(ls: seq<string>, i: nat)
    requires i < |ls|
    ensures Join(ls[i..]) == ls[i] + After(ls, i)
  {
    JoinFirstLine(ls[i..]);
    assert ls[i..][1..] == ls[i + 1..];
  }

  lemma AppendAssociates<T>(a: seq<T>, b: seq<T>, c: seq<T>)
    ensures a + (b + c) == a + b + c
  {
  }

  lemma JoinSplitAfterFirst(ls: seq<string>, i: nat)
    requires 0 < i < |ls|
    ensures Join(ls) == Join(ls[..i]) + "\n" + (ls[i] + After(ls, i))
  {
    var front, tail := ls[..i], ls[i..];
    assert ls == front + tail;
    JoinAppend(front, tail);
    JoinFromLine(ls, i);
  }

  /** A file is the text before line `i`, line `i`, and the text after it. */
  lemma JoinSplitAt(ls: seq<string>, i: nat)
    requires i < |ls|
    ensures Join(ls) == Before(ls, i) + ls[i] + After(ls, i)
  {
    if i > 0 {
      JoinSplitAfterFirst(ls, i);
      AppendAssociates(Join(ls[..i]) + "\n", ls[i], After(ls, i));
    } else {
      JoinFirstLine(ls);
    }
  }
}
