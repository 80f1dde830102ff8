/**
 * `PLACEHOLDER_PATTERN` (app.py) and the `subn` call that replaces it.
 *
 * The regular expression is read as a hand-written recogniser over a content
 * stream. Each part of the pattern is deterministic (a run of `\s` is always
 * followed by a non-space literal, a bracketed payload cannot contain `]`), so
 * the match starting at a position, when there is one, is unique.
 */
module Placeholder {
  import opened Results
  import opened Text

  /** The literal operator text the pattern anchors on. */
  const Head: string := "/C2_0 19.2 Tf"
  const Matrix: string := "0.6375 0 0 0.6375 157.2973 535.605 Tm"
  const Offset: string := "372.799 0 Td"

  /** `\s` in a bytes pattern: space, tab, line feed, vertical tab, form feed, carriage return. */
  predicate IsSpace(c: char) {
    c == ' ' || ('\t' <= c <= '\r')
  }

  predicate AllSpace(w: string) {
    forall i :: 0 <= i < |w| ==> IsSpace(w[i])
  }

  /** No `]` inside: what `[^\]]` accepts, character by character. */
  predicate NoClose(w: string) {
    forall i :: 0 <= i < |w| ==> w[i] != ']'
  }

  /**
   * One element of the pattern: a literal text (its `\.` read as `.`), a run of
   * `\s` (`\s+` when `atLeastOne`, `\s*` otherwise), or a show-text operator with
   * an array operand, `\[[^\]]+\]TJ`.
   */
  datatype Atom = Literal(text: string) | Space(atLeastOne: bool) | ShowArray

  /** `PLACEHOLDER_PATTERN`, element by element. */
  const Pattern: seq<Atom> := [
    Literal(Head), Space(true), Literal(Matrix), Space(false), ShowArray,
    Space(false), Literal(Offset), Space(false), ShowArray]

  /** `[payload]TJ`: a show-text operator with an array operand. */
  function Shown(payload: string): string {
    "[" + payload + "]TJ"
  }

  /** `piece` is one of the strings the element `a` matches. */
  predicate AcceptsAtom(a: Atom, piece: string) {
    match a
    case Literal(text) => piece == text
    case Space(atLeastOne) => AllSpace(piece) && (atLeastOne ==> piece != [])
    case ShowArray =>
      |piece| >= 5 && piece == Shown(piece[1..|piece| - 3]) && NoClose(piece[1..|piece| - 3])
  }

  /** `pieces` are the texts matched by the elements of `atoms`, one each, in order. */
  predicate AcceptsAll(atoms: seq<Atom>, pieces: seq<string>) {
    |pieces| == |atoms| && forall i :: 0 <= i < |atoms| ==> AcceptsAtom(atoms[i], pieces[i])
  }

  /** One occurrence of the pattern, as the texts matched by its nine elements. */
  predicate IsOccurrence(pieces: seq<string>) {
    AcceptsAll(Pattern, pieces)
  }

  function Concat(pieces: seq<string>): string {
    if pieces == [] then [] else pieces[0] + Concat(pieces[1..])
  }

  /** Length of the greedy run of `\s` at the start of `t`. */
  function Spaces(t: string): (n: nat)
    ensures n <= |t| && AllSpace(t[..n])
    ensures n < |t| ==> !IsSpace(t[n])
  {
    if t != [] && IsSpace(t[0]) then
      var n := 1 + Spaces(t[1..]);
      assert forall i :: 1 <= i < n ==> t[..n][i] == t[1..][..n - 1][i - 1];
      n
    else 0
  }

  /** `\s*` at the start of `t`: the run of white space and what follows it. */
  function SplitSpaces(t: string): (r: (string, string))
    ensures AllSpace(r.0) && t == r.0 + r.1
    ensures r.1 != [] ==> !IsSpace(r.1[0])
  {
    var n := Spaces(t);
    assert t == t[..n] + t[n..];
    (t[..n], t[n..])
  }

  /** `lit` at the start of `t`: what follows it. */
  function AfterLiteral(lit: string, t: string): (r: Option<string>)
    ensures r.Some? ==> t == lit + r.value
  {
    if lit <= t then
      assert t == t[..|lit|] + t[|lit|..];
      Some(t[|lit|..])
    else None
  }

  /** Index of the first `]` in `t`, or `|t|` when there is none. */
  function CloseIndex(t: string): (k: nat)
    ensures k <= |t| && NoClose(t[..k])
    ensures k < |t| ==> t[k] == ']'
  {
    if t == [] || t[0] == ']' then 0
    else
      var k := 1 + CloseIndex(t[1..]);
      assert forall i :: 1 <= i < k ==> t[..k][i] == t[1..][..k - 1][i - 1];
      k
  }

  /** `\[[^\]]+\]TJ` at the start of `t`: the payload and what follows the operator. */
  function ShowText(t: string): (r: Option<(string, string)>)
    ensures r.Some? ==> |r.value.0| > 0 && NoClose(r.value.0) && t == Shown(r.value.0) + r.value.1
  {
    if t == [] || t[0] != '[' then None
    else
      var k := CloseIndex(t[1..]);
      var after := t[1..][k..];
      if k == 0 || !("]TJ" <= after) then None
      else
        assert t == "[" + t[1..][..k] + after;
        assert after == "]TJ" + after[3..];
        Some((t[1..][..k], after[3..]))
  }

  /** One element at the start of `t`: the text it matches and what follows. */
  function MatchAtom(a: Atom, t: string): (r: Option<(string, string)>)
    ensures r.Some? ==> AcceptsAtom(a, r.value.0) && t == r.value.0 + r.value.1
  {
    match a
    case Literal(text) =>
      (match AfterLiteral(text, t)
       case None => None
       case Some(rest) => Some((text, rest)))
    case Space(atLeastOne) =>
      var (gap, rest) := SplitSpaces(t);
      if atLeastOne && gap == [] then None else Some((gap, rest))
    case ShowArray =>
      match ShowText(t)
      case None => None
      case Some((payload, rest)) =>
        var piece := Shown(payload);
        assert piece[1..|piece| - 3] == payload;
        assert t == piece + rest;
        Some((piece, rest))
  }

  /**
   * The elements of `atoms` one after the other at the start of `t`, each taking
   * the text its own rule gives it: the texts matched and what follows. The
   * contract is soundness: each text is one its element accepts, and `t` is
   * their concatenation followed by the rest.
   */
  function MatchAtoms(atoms: seq<Atom>, t: string): (r: Option<(seq<string>, string)>)
    ensures r.Some? ==> AcceptsAll(atoms, r.value.0) && t == Concat(r.value.0) + r.value.1
  {
    if atoms == [] then Some(([], t))
    else
      match MatchAtom(atoms[0], t)
      case None => None
      case Some((piece, t')) =>
        match MatchAtoms(atoms[1..], t')
        case None => None
        case Some((pieces, rest)) =>
          var all := [piece] + pieces;
          assert all[1..] == pieces;
          assert AcceptsAll(atoms, all) by {
            forall i | 0 <= i < |atoms| ensures AcceptsAtom(atoms[i], all[i]) {
              if i > 0 {
                assert atoms[i] == atoms[1..][i - 1] && all[i] == pieces[i - 1];
              }
            }
          }
          Some((all, rest))
  }

  /**
   * Python's `PLACEHOLDER_PATTERN.match(t)`: the occurrence at the start of `t`,
   * if any, as its pieces, and the text after it.
   */
  function Match(t: string): (r: Option<(seq<string>, string)>)
    ensures r.Some? ==> IsOccurrence(r.value.0) && t == Concat(r.value.0) + r.value.1
    ensures r.Some? ==> |r.value.1| < |t|
  {
    var r := MatchAtoms(Pattern, t);
    if r.Some? then
      var pieces := r.value.0;
      assert AcceptsAtom(Pattern[0], pieces[0]);
      assert Concat(pieces) == pieces[0] + Concat(pieces[1..]);
      r
    else r
  }

  /** A text matched by `a` is never empty and never starts with white space. */
  predicate StartsFirm(a: Atom) {
    a.ShowArray? || (a.Literal? && a.text != [] && !IsSpace(a.text[0]))
  }

  /**
   * Every run of white space is followed by an element that cannot start with
   * white space: greedy matching of the run is then the only way to match.
   */
  predicate Deterministic(atoms: seq<Atom>) {
    forall i :: 0 <= i < |atoms| && atoms[i].Space? ==> i + 1 < |atoms| && StartsFirm(atoms[i + 1])
  }

  lemma PatternDeterministic()
    ensures Deterministic(Pattern)
  {
  }

  lemma {:induction false} SpacesCount(w: string, u: string)
    requires AllSpace(w) && (u != [] ==> !IsSpace(u[0]))
    ensures Spaces(w + u) == |w|
    decreases |w|
  {
    if w == [] {
      assert w + u == u;
    } else {
      assert (w + u)[1..] == w[1..] + u;
      SpacesCount(w[1..], u);
    }
  }

  lemma SpacesThen(w: string, u: string)
    requires AllSpace(w) && (u != [] ==> !IsSpace(u[0]))
    ensures SplitSpaces(w + u) == (w, u)
  {
    SpacesCount(w, u);
    assert (w + u)[..|w|] == w && (w + u)[|w|..] == u;
  }

  lemma LiteralThen(lit: string, u: string)
    ensures AfterLiteral(lit, lit + u) == Some(u)
  {
    assert lit <= lit + u;
    assert (lit + u)[|lit|..] == u;
  }

  lemma {:induction false} CloseIndexThen(w: string, u: string)
    requires NoClose(w) && u != [] && u[0] == ']'
    ensures CloseIndex(w + u) == |w|
    decreases |w|
  {
    if w == [] {
      assert w + u == u;
    } else {
      assert (w + u)[1..] == w[1..] + u;
      CloseIndexThen(w[1..], u);
    }
  }

  lemma ShowTextThen(payload: string, u: string)
    requires |payload| > 0 && NoClose(payload)
    ensures ShowText(Shown(payload) + u) == Some((payload, u))
  {
    var t := Shown(payload) + u;
    assert t[1..] == payload + ("]TJ" + u);
    CloseIndexThen(payload, "]TJ" + u);
    assert t[1..][|payload|..] == "]TJ" + u;
    assert t[1..][..|payload|] == payload;
    assert ("]TJ" + u)[3..] == u;
  }

  /** An element finds exactly the text it accepts when nothing ambiguous follows. */
  lemma MatchAtomThen(a: Atom, piece: string, u: string)
    requires AcceptsAtom(a, piece)
    requires a.Space? ==> u != [] && !IsSpace(u[0])
    ensures MatchAtom(a, piece + u) == Some((piece, u))
  {
    match a
    case Literal(text) => LiteralThen(text, u);
    case Space(_) => SpacesThen(piece, u);
    case ShowArray => ShowTextThen(piece[1..|piece| - 3], u);
  }

  /**
   * Completeness: when the elements run without ambiguity, any texts they accept,
   * placed one after the other, are found again, piece by piece, whatever follows.
   */
  lemma {:induction false} MatchAtomsThen(atoms: seq<Atom>, pieces: seq<string>, rest: string)
    requires Deterministic(atoms) && AcceptsAll(atoms, pieces)
    ensures MatchAtoms(atoms, Concat(pieces) + rest) == Some((pieces, rest))
  {
    if atoms == [] {
      assert Concat(pieces) + rest == rest;
    } else {
      var u := Concat(pieces[1..]) + rest;
      assert Concat(pieces) + rest == pieces[0] + u;
      if atoms[0].Space? {
        assert StartsFirm(atoms[1]) && AcceptsAtom(atoms[1], pieces[1]);
        assert Concat(pieces[1..]) == pieces[1] + Concat(pieces[2..]);
        assert u[0] == pieces[1][0];
      }
      MatchAtomThen(atoms[0], pieces[0], u);
      assert Deterministic(atoms[1..]) by {
        forall i | 0 <= i < |atoms[1..]| && atoms[1..][i].Space?
          ensures i + 1 < |atoms[1..]| && StartsFirm(atoms[1..][i + 1])
        {
          assert atoms[1..][i] == atoms[i + 1];
        }
      }
      assert AcceptsAll(atoms[1..], pieces[1..]) by {
        forall i | 0 <= i < |atoms[1..]| ensures AcceptsAtom(atoms[1..][i], pieces[1..][i]) {
          assert atoms[1..][i] == atoms[i + 1] && pieces[1..][i] == pieces[i + 1];
        }
      }
      MatchAtomsThen(atoms[1..], pieces[1..], rest);
      assert [pieces[0]] + pieces[1..] == pieces;
    }
  }

  /**
   * The recogniser accepts exactly the pattern's language: every occurrence at
   * the start of the text is found with exactly its pieces, whatever follows, so
   * the match at a position is unique.
   */
  lemma MatchOccurrence(pieces: seq<string>, rest: string)
    requires IsOccurrence(pieces)
    ensures Match(Concat(pieces) + rest) == Some((pieces, rest))
  {
    PatternDeterministic();
    MatchAtomsThen(Pattern, pieces, rest);
  }

  /** No occurrence of the pattern starts in `t` before index `n`. */
  predicate NoMatchBefore(t: string, n: nat) {
    forall k {:trigger Match(t[k..])} :: 0 <= k < n && k <= |t| ==> Match(t[k..]).None?
  }

  /** No occurrence of the pattern starts anywhere in `t`. */
  predicate NoMatch(t: string) {
    NoMatchBefore(t, |t|)
  }

  /**
   * Python's `pattern.subn(repl, t)` with a replacement used as it is: scanning
   * from the left, every non-overlapping occurrence is replaced by `repl` and
   * every other byte is copied; gives the new text and the number of occurrences.
   */
  function Subn(t: string, repl: string): (r: (string, nat))
    decreases |t|
  {
    if t == [] then ([], 0)
    else
      match Match(t)
      case Some((_, rest)) =>
        var (out, n) := Subn(rest, repl);
        (repl + out, n + 1)
      case None =>
        var (out, n) := Subn(t[1..], repl);
        ([t[0]] + out, n)
  }

  /**
   * `subn` counts zero replacements exactly when the pattern occurs nowhere, and
   * then the text comes back unchanged.
   */
  lemma {:induction false} SubnNoMatch(t: string, repl: string)
    ensures Subn(t, repl).1 == 0 <==> NoMatch(t)
    ensures NoMatch(t) ==> Subn(t, repl).0 == t
    decreases |t|
  {
    if t != [] {
      SubnNoMatch(t[1..], repl);
      if Match(t).None? {
        SubnNoMatchSkip(t, repl, Subn(t[1..], repl).0, Subn(t[1..], repl).1);
      } else {
        SubnNoMatchHit(t, repl);
      }
    }
  }

  /** The step of `SubnNoMatch` at a position where the pattern does not start. */
  lemma SubnNoMatchSkip(t: string, repl: string, out: string, n: nat)
    requires t != [] && Match(t).None?
    requires Subn(t[1..], repl) == (out, n)
    requires n == 0 <==> NoMatch(t[1..])
    requires NoMatch(t[1..]) ==> out == t[1..]
    ensures Subn(t, repl).1 == 0 <==> NoMatch(t)
    ensures NoMatch(t) ==> Subn(t, repl).0 == t
  {
    SubnSkip(t, repl);
    NoMatchStep(t);
    assert [t[0]] + t[1..] == t;
  }

  /** The step of `SubnNoMatch` at a position where the pattern starts. */
  lemma SubnNoMatchHit(t: string, repl: string)
    requires Match(t).Some?
    ensures Subn(t, repl).1 != 0 && !NoMatch(t)
  {
    SubnHit(t, repl);
    assert t[0..] == t;
  }

  /** The pattern occurs nowhere in `t` exactly when it starts neither at its first byte nor in the rest. */
  lemma NoMatchStep(t: string)
    requires t != []
    ensures NoMatch(t) <==> Match(t).None? && NoMatch(t[1..])
  {
    assert t[0..] == t;
    if NoMatch(t) {
      forall k | 0 <= k < |t| - 1
        ensures Match(t[1..][k..]).None?
      {
        assert t[1..][k..] == t[k + 1..];
      }
    } else {
      var k :| 0 <= k < |t| && Match(t[k..]).Some?;
      if k > 0 {
        assert t[1..][k - 1..] == t[k..];
      }
    }
  }

  /** `subn` at a position where the pattern does not start copies one byte. */
  lemma SubnSkip(t: string, repl: string)
    requires t != [] && Match(t).None?
    ensures Subn(t, repl) == ([t[0]] + Subn(t[1..], repl).0, Subn(t[1..], repl).1)
  {
  }

  /** `subn` at a position where the pattern starts replaces the match. */
  lemma SubnHit(t: string, repl: string)
    requires Match(t).Some?
    ensures Subn(t, repl) == (repl + Subn(Match(t).value.1, repl).0, Subn(Match(t).value.1, repl).1 + 1)
  {
  }

  /** With no occurrence before `pre` ends, none starts at its first byte, nor before the rest of it ends. */
  lemma NoMatchBeforeTail(pre: string, u: string)
    requires pre != [] && NoMatchBefore(pre + u, |pre|)
    ensures Match(pre + u).None? && NoMatchBefore(pre[1..] + u, |pre| - 1)
  {
    var t := pre + u;
    assert t[0..] == t;
    forall k | 0 <= k < |pre| - 1
      ensures Match((pre[1..] + u)[k..]).None?
    {
      assert (pre[1..] + u)[k..] == t[k + 1..];
    }
  }

  /** An occurrence at the start is replaced, and scanning goes on after it. */
  lemma SubnSpliceFirst(o: seq<string>, post: string, repl: string)
    requires IsOccurrence(o)
    ensures Subn(Concat(o) + post, repl) == (repl + Subn(post, repl).0, Subn(post, repl).1 + 1)
  {
    MatchOccurrence(o, post);
    SubnHit(Concat(o) + post, repl);
  }

  /** A byte before the first occurrence is copied. */
  lemma SubnSpliceStep(pre: string, u: string, repl: string, out: string, n: nat)
    requires pre != [] && Match(pre + u).None?
    requires Subn(pre[1..] + u, repl) == (pre[1..] + repl + out, n)
    ensures Subn(pre + u, repl) == (pre + repl + out, n)
  {
    var t := pre + u;
    assert t[1..] == pre[1..] + u;
    SubnSkip(t, repl);
    assert [pre[0]] + (pre[1..] + repl + out) == pre + repl + out;
  }

  /**
   * Bytes outside the occurrences are unchanged: when the first occurrence starts
   * after `pre`, `subn` copies `pre`, puts `repl` in place of the occurrence and
   * goes on with what follows it.
   */
  lemma {:induction false} SubnSplice(pre: string, o: seq<string>, post: string, repl: string)
    requires IsOccurrence(o)
    requires NoMatchBefore(pre + (Concat(o) + post), |pre|)
    ensures Subn(pre + (Concat(o) + post), repl)
      == (pre + repl + Subn(post, repl).0, Subn(post, repl).1 + 1)
    decreases |pre|
  {
    if pre == [] {
      SubnSpliceFirst(o, post, repl);
      assert pre + (Concat(o) + post) == Concat(o) + post;
      assert pre + repl == repl;
    } else {
      NoMatchBeforeTail(pre, Concat(o) + post);
      SubnSplice(pre[1..], o, post, repl);
      SubnSpliceStep(pre, Concat(o) + post, repl, Subn(post, repl).0, Subn(post, repl).1 + 1);
    }
  }

  /**
   * A content stream holding exactly one occurrence: `subn` reports one
   * replacement and changes nothing but the occurrence itself.
   */
  lemma ExactlyOnce(pre: string, o: seq<string>, post: string, repl: string)
    requires IsOccurrence(o) && NoMatch(post)
    requires NoMatchBefore(pre + (Concat(o) + post), |pre|)
    ensures Subn(pre + (Concat(o) + post), repl) == (pre + repl + post, 1)
  {
    assert Subn(post, repl) == (post, 0) by {
      SubnNoMatch(post, repl);
    }
    SubnSplice(pre, o, post, repl);
  }

  predicate IsAsciiLetter(c: char) {
    ('a' <= c <= 'z') || ('A' <= c <= 'Z')
  }

  function PrependText(prefix: string, r: Option<string>): Option<string> {
    match r
    case None => None
    case Some(text) => Some(prefix + text)
  }

  /**
   * The processing Python's `re` applies to a replacement given as a byte string
   * before `subn` inserts it: `\\` becomes one backslash, `\a \b \f \n \r \t \v`
   * become control characters, an escape of any other ASCII letter is an error,
   * and a backslash before any other character is kept with that character.
   * Group references and octal escapes (`\g<…>`, `\0` to `\9`) are answered
   * `None` here: the pattern has no group, and octal escapes are not modelled.
   */
  function ExpandTemplate(t: string): Option<string>
    decreases |t|
  {
    if t == [] then Some([])
    else if t[0] != '\\' then PrependText([t[0]], ExpandTemplate(t[1..]))
    else if |t| == 1 then None
    else
      var c := t[1];
      if c == '\\' then PrependText("\\", ExpandTemplate(t[2..]))
      else if c == 'a' then PrependText("\U{7}", ExpandTemplate(t[2..]))
      else if c == 'b' then PrependText("\U{8}", ExpandTemplate(t[2..]))
      else if c == 'f' then PrependText("\U{c}", ExpandTemplate(t[2..]))
      else if c == 'n' then PrependText("\n", ExpandTemplate(t[2..]))
      else if c == 'r' then PrependText("\r", ExpandTemplate(t[2..]))
      else if c == 't' then PrependText("\t", ExpandTemplate(t[2..]))
      else if c == 'v' then PrependText("\U{b}", ExpandTemplate(t[2..]))
      else if c == 'g' || ('0' <= c <= '9') || IsAsciiLetter(c) then None
      else PrependText(['\\', c], ExpandTemplate(t[2..]))
  }

  /**
   * `subn` as app.py calls it: the replacement is first expanded as a template
   * (a failing template raises before any scanning), then substituted.
   */
  function SubnAsWritten(t: string, template: string): (r: Option<(string, nat)>)
    ensures ExpandTemplate(template).Some? ==> r == Some(Subn(t, ExpandTemplate(template).value))
  {
    match ExpandTemplate(template)
    case None => None
    case Some(repl) => Some(Subn(t, repl))
  }
}
