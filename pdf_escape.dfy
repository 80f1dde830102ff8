/**
 * `escape_pdf` (app.py): escaping of the three metacharacters of a PDF
 * literal string, and the reading of a literal string back, as section
 * 7.3.4.2 (Literal Strings) of ISO 32000-1 describes it.
 */
module PdfEscape {
  import opened Results

  /** The characters that must be escaped inside a literal string. */
  predicate IsMeta(c: char) {
    c == '\\' || c == '(' || c == ')'
  }

  /** Python's `s.replace(c, rep)` for a one-character pattern `c`. */
  function ReplaceChar(s: string, c: char, rep: string): (r: string)
    ensures c !in s ==> r == s
  {
    if s == [] then [] else (if s[0] == c then rep else [s[0]]) + ReplaceChar(s[1..], c, rep)
  }

  /** `escape_pdf`: the chain of three `replace` calls, backslash first. */
  function EscapePdf(text: string): string {
    ReplaceChar(ReplaceChar(ReplaceChar(text, '\\', "\\\\"), '(', "\\("), ')', "\\)")
  }

  /** The escape of one character: a metacharacter gets one backslash before it. */
  function EscapeChar(c: char): string {
    if IsMeta(c) then ['\\', c] else [c]
  }

  /** Reference definition: every character escaped on its own, in order. */
  function Escaped(s: string): string {
    if s == [] then [] else EscapeChar(s[0]) + Escaped(s[1..])
  }

  /** Number of metacharacters in `s`. */
  function MetaCount(s: string): nat {
    if s == [] then 0 else (if IsMeta(s[0]) then 1 else 0) + MetaCount(s[1..])
  }

  lemma {:induction false} ReplaceCharAppend(a: string, b: string, c: char, rep: string)
    ensures ReplaceChar(a + b, c, rep) == ReplaceChar(a, c, rep) + ReplaceChar(b, c, rep)
  {
    if a == [] {
      assert a + b == b;
    } else {
      assert (a + b)[1..] == a[1..] + b;
      ReplaceCharAppend(a[1..], b, c, rep);
    }
  }

  /**
   * The three chained replacements act on each character independently and
   * agree with the one-pass reference: the backslashes added for `(` and `)`
   * are never doubled again because backslashes are replaced first.
   */
  lemma {:induction false} EscapePdfIsEscaped(s: string)
    ensures EscapePdf(s) == Escaped(s)
  {
    if s != [] {
      var c := s[0];
      var b1 := if c == '\\' then "\\\\" else [c];
      var a1 := ReplaceChar(s[1..], '\\', "\\\\");
      assert ReplaceChar(s, '\\', "\\\\") == b1 + a1;
      ReplaceCharAppend(b1, a1, '(', "\\(");
      var b2 := ReplaceChar(b1, '(', "\\(");
      var a2 := ReplaceChar(a1, '(', "\\(");
      ReplaceCharAppend(b2, a2, ')', "\\)");
      EscapePdfIsEscaped(s[1..]);
      assert ReplaceChar(b2, ')', "\\)") == EscapeChar(c) by {
        if c == '\\' {
          ReplaceCharAppend(['\\'], ['\\'], '(', "\\(");
          ReplaceCharAppend(['\\'], ['\\'], ')', "\\)");
        } else if c == '(' {
          ReplaceCharAppend(['\\'], ['('], ')', "\\)");
        }
      }
    }
  }

  /** Length law: one backslash is added per metacharacter. */
  lemma {:induction false} EscapedLength(s: string)
    ensures |EscapePdf(s)| == |s| + MetaCount(s)
  {
    EscapePdfIsEscaped(s);
    EscapedLengthRef(s);
  }

  lemma {:induction false} EscapedLengthRef(s: string)
    ensures |Escaped(s)| == |s| + MetaCount(s)
  {
    if s != [] {
      EscapedLengthRef(s[1..]);
    }
  }

  /**
   * Character-by-character law: the character at index `i` of the input lands at
   * index `i + MetaCount(s[..i])` of the output, right after one added backslash
   * when it is a metacharacter; with the length law, the output holds nothing else.
   */
  lemma EscapedAt(s: string, i: nat)
    requires i < |s|
    ensures var j := i + MetaCount(s[..i]);
      if IsMeta(s[i])
      then j + 1 < |EscapePdf(s)| && EscapePdf(s)[j] == '\\' && EscapePdf(s)[j + 1] == s[i]
      else j < |EscapePdf(s)| && EscapePdf(s)[j] == s[i]
  {
    EscapePdfIsEscaped(s);
    EscapedAtRef(s, i);
  }

  lemma {:induction false} EscapedAtRef(s: string, i: nat)
    requires i < |s|
    ensures var j := i + MetaCount(s[..i]);
      if IsMeta(s[i])
      then j + 1 < |Escaped(s)| && Escaped(s)[j] == '\\' && Escaped(s)[j + 1] == s[i]
      else j < |Escaped(s)| && Escaped(s)[j] == s[i]
  {
    EscapedLengthRef(s[1..]);
    if i > 0 {
      assert s[..i][1..] == s[1..][..i - 1];
      EscapedAtRef(s[1..], i - 1);
    }
  }

  /** Reads back the three escapes `\\`, `\(` and `\)`; every other character is copied. */
  function Unescape(t: string): string
    decreases |t|
  {
    if t == [] then []
    else if |t| >= 2 && t[0] == '\\' && IsMeta(t[1]) then [t[1]] + Unescape(t[2..])
    else [t[0]] + Unescape(t[1..])
  }

  /** Round trip: unescaping the output of `escape_pdf` gives back the input. */
  lemma UnescapeEscapePdf(s: string)
    ensures Unescape(EscapePdf(s)) == s
  {
    EscapePdfIsEscaped(s);
    UnescapeEscaped(s);
  }

  lemma {:induction false} UnescapeEscaped(s: string)
    ensures Unescape(Escaped(s)) == s
  {
    if s != [] {
      var t := Escaped(s);
      UnescapeEscaped(s[1..]);
      if IsMeta(s[0]) {
        assert t[2..] == Escaped(s[1..]);
      } else {
        assert t[1..] == Escaped(s[1..]);
      }
    }
  }

  /** Escaping what was unescaped from an escaped string gives the same escaped string. */
  lemma EscapeUnescapeStable(s: string)
    ensures EscapePdf(Unescape(EscapePdf(s))) == EscapePdf(s)
  {
    UnescapeEscapePdf(s);
  }

  function Prepend(prefix: string, r: Option<(string, string)>): Option<(string, string)> {
    match r
    case None => None
    case Some((body, rest)) => Some((prefix + body, rest))
  }

  predicate IsOctalDigit(c: char) {
    '0' <= c <= '7'
  }

  /** Number of leading octal digits of `u`, at most three. */
  function OctalRun(u: string): (n: nat)
    ensures n <= 3 && n <= |u|
  {
    if u != [] && IsOctalDigit(u[0]) then
      if |u| >= 2 && IsOctalDigit(u[1]) then
        if |u| >= 3 && IsOctalDigit(u[2]) then 3 else 2
      else 1
    else 0
  }

  function OctalValue(u: string): nat
    requires forall i :: 0 <= i < |u| ==> IsOctalDigit(u[i])
  {
    if u == [] then 0
    else
      var d := u[|u| - 1];
      assert IsOctalDigit(d);
      8 * OctalValue(u[..|u| - 1]) + (d as int - '0' as int)
  }

  /**
   * The escape sequence that follows a backslash: its decoded text and how many
   * characters it takes. A backslash before an end-of-line marker (CR, LF or
   * CR LF) continues the string on the next line: both are dropped. An unknown
   * character after the backslash makes the backslash ignored (it takes
   * nothing).
   */
  function EscapeSequence(u: string): (r: (string, nat))
    requires u != []
    ensures r.1 <= |u|
  {
    var c := u[0];
    if IsMeta(c) then ([c], 1)
    else if c == 'n' then ("\n", 1)
    else if c == 'r' then ("\r", 1)
    else if c == 't' then ("\t", 1)
    else if c == 'b' then ("\U{8}", 1)
    else if c == 'f' then ("\U{c}", 1)
    else if c == '\r' then ([], if |u| >= 2 && u[1] == '\n' then 2 else 1)
    else if c == '\n' then ([], 1)
    else if IsOctalDigit(c) then
      var n := OctalRun(u);
      ([(OctalValue(u[..n]) % 256) as char], n)
    else ([], 0)
  }

  /**
   * Reads the body of a literal string, from just after its opening parenthesis,
   * as section 7.3.4.2 of ISO 32000-1 prescribes: escape sequences are decoded,
   * balanced unescaped parentheses belong to the string, an unescaped
   * end-of-line marker (CR, LF or CR LF) is read as one LF, and the unescaped
   * `)` that closes the outermost level ends it. Gives the decoded text and
   * what follows the closing parenthesis; `None` when the string never closes.
   */
  function ReadLiteral(t: string, depth: nat): Option<(string, string)>
    decreases |t|
  {
    if t == [] then None
    else if t[0] == '\\' then
      if |t| == 1 then None
      else
        var (decoded, used) := EscapeSequence(t[1..]);
        Prepend(decoded, ReadLiteral(t[1 + used..], depth))
    else if t[0] == '\r' then Prepend("\n", ReadLiteral(if |t| >= 2 && t[1] == '\n' then t[2..] else t[1..], depth))
    else if t[0] == '(' then Prepend("(", ReadLiteral(t[1..], depth + 1))
    else if t[0] == ')' then
      if depth == 0 then Some(([], t[1..])) else Prepend(")", ReadLiteral(t[1..], depth - 1))
    else Prepend([t[0]], ReadLiteral(t[1..], depth))
  }

  /** `s` with every end-of-line marker (CR, LF or CR LF) written as one LF. */
  function NormaliseEol(s: string): string
    decreases |s|
  {
    if s == [] then []
    else if s[0] == '\r' then "\n" + NormaliseEol(if |s| >= 2 && s[1] == '\n' then s[2..] else s[1..])
    else [s[0]] + NormaliseEol(s[1..])
  }

  /** Text without a carriage return is already normalised. */
  lemma {:induction false} NormaliseEolWithoutCr(s: string)
    requires '\r' !in s
    ensures NormaliseEol(s) == s
  {
    if s != [] {
      assert s[0] != '\r';
      assert '\r' !in s[1..];
      NormaliseEolWithoutCr(s[1..]);
      assert [s[0]] + s[1..] == s;
    }
  }

  /**
   * An escaped string placed between parentheses is read back as the original
   * text with its end-of-line markers read as LF (exactly the original text
   * when it holds no CR), and the literal string closes at the parenthesis
   * placed after it, whatever follows.
   */
  lemma {:induction false} ReadEscapedLiteral(s: string, rest: string)
    ensures ReadLiteral(EscapePdf(s) + ")" + rest, 0) == Some((NormaliseEol(s), rest))
    ensures '\r' !in s ==> ReadLiteral(EscapePdf(s) + ")" + rest, 0) == Some((s, rest))
  {
    EscapePdfIsEscaped(s);
    ReadEscaped(s, rest);
    if '\r' !in s {
      NormaliseEolWithoutCr(s);
    }
  }

  lemma {:induction false} ReadEscaped(s: string, rest: string)
    ensures ReadLiteral(Escaped(s) + ")" + rest, 0) == Some((NormaliseEol(s), rest))
    decreases |s|
  {
    if s == [] {
      assert Escaped(s) + ")" + rest == [')'] + rest;
      assert ([')'] + rest)[1..] == rest;
    } else if s[0] == '\r' && |s| >= 2 && s[1] == '\n' {
      ReadEscaped(s[2..], rest);
      ReadEscapedCrLf(s, rest);
    } else {
      ReadEscaped(s[1..], rest);
      ReadEscapedFirst(s, rest);
    }
  }

  /** A CR LF pair at the start of the text is read as one LF. */
  lemma ReadEscapedCrLf(s: string, rest: string)
    requires |s| >= 2 && s[0] == '\r' && s[1] == '\n'
    requires ReadLiteral(Escaped(s[2..]) + ")" + rest, 0) == Some((NormaliseEol(s[2..]), rest))
    ensures ReadLiteral(Escaped(s) + ")" + rest, 0) == Some((NormaliseEol(s), rest))
  {
    var tail := Escaped(s[2..]) + ")" + rest;
    assert Escaped(s) == "\r\n" + Escaped(s[2..]) by {
      assert s[1..][0] == '\n' && s[1..][1..] == s[2..];
      assert Escaped(s) == EscapeChar('\r') + Escaped(s[1..]);
      assert Escaped(s[1..]) == EscapeChar('\n') + Escaped(s[2..]);
    }
    assert Escaped(s) + ")" + rest == "\r\n" + tail;
    assert ("\r\n" + tail)[2..] == tail;
  }

  /** The first character of the text, not the CR of a CR LF pair, is read as itself (a lone CR as LF). */
  lemma ReadEscapedFirst(s: string, rest: string)
    requires s != [] && !(s[0] == '\r' && |s| >= 2 && s[1] == '\n')
    requires ReadLiteral(Escaped(s[1..]) + ")" + rest, 0) == Some((NormaliseEol(s[1..]), rest))
    ensures ReadLiteral(Escaped(s) + ")" + rest, 0) == Some((NormaliseEol(s), rest))
  {
    assert Escaped(s) + ")" + rest == EscapeChar(s[0]) + (Escaped(s[1..]) + ")" + rest);
    ReadEscapedStep(s[0], s[1..], rest, NormaliseEol(s[1..]));
    assert s[1..] != [] ==> s[1..][0] == s[1];
  }

  /**
   * One escaped character of the text, not the CR of a CR LF pair, is read as
   * itself (a lone CR as LF).
   */
  lemma ReadEscapedStep(c: char, s: string, rest: string, body: string)
    requires ReadLiteral(Escaped(s) + ")" + rest, 0) == Some((body, rest))
    requires c == '\r' ==> s == [] || s[0] != '\n'
    ensures ReadLiteral(EscapeChar(c) + (Escaped(s) + ")" + rest), 0)
         == Some(((if c == '\r' then "\n" else [c]) + body, rest))
  {
    var tail := Escaped(s) + ")" + rest;
    if IsMeta(c) {
      ReadEscapeOf(c, tail, body, rest);
    } else if c == '\r' {
      assert tail[0] != '\n' by {
        if s != [] {
          assert tail[0] == EscapeChar(s[0])[0];
        }
      }
      ReadLoneCr(tail, body, rest);
    } else {
      ReadOrdinary(c, tail, body, rest);
    }
  }

  /** An escaped metacharacter is read as the character. */
  lemma ReadEscapeOf(c: char, tail: string, body: string, rest: string)
    requires IsMeta(c) && ReadLiteral(tail, 0) == Some((body, rest))
    ensures ReadLiteral(['\\', c] + tail, 0) == Some(([c] + body, rest))
  {
    var u := ['\\', c] + tail;
    assert u[1..] == [c] + tail && u[2..] == tail;
    assert EscapeSequence(u[1..]) == ([c], 1);
  }

  /** A CR not followed by LF is read as LF. */
  lemma ReadLoneCr(tail: string, body: string, rest: string)
    requires tail != [] && tail[0] != '\n' && ReadLiteral(tail, 0) == Some((body, rest))
    ensures ReadLiteral(['\r'] + tail, 0) == Some(("\n" + body, rest))
  {
    assert (['\r'] + tail)[1..] == tail;
  }

  /** Any other character is read as itself. */
  lemma ReadOrdinary(c: char, tail: string, body: string, rest: string)
    requires !IsMeta(c) && c != '\r' && ReadLiteral(tail, 0) == Some((body, rest))
    ensures ReadLiteral([c] + tail, 0) == Some(([c] + body, rest))
  {
    assert ([c] + tail)[1..] == tail;
  }
}
