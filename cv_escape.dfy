/**
 * `escape_copy`: term names and definitions are written into the generated
 * C++ as string literals. The OBO 1.2 format (section 1.5 of its format
 * guide) lets a backslash escape `! : , ( ) [ ] { }`, which are not escape
 * sequences in C++, so the generator doubles the backslash of each of them.
 *
 * The source does this with nine successive `replace_all` calls; `Escaped` is
 * a single left-to-right pass that serves as the reference, and
 * `CompileLiteral` is what the C++ compiler makes of the emitted literal (no
 * value when it does not compile), the inverse that shows the doubling is
 * what brings the OBO text back.
 */
module CvEscape {
  import opened Wrappers
  import opened Ascii

  /**
   * The nine characters whose OBO escapes `escape_copy` doubles:
   * `! : , ( ) [ ] { }`. The OBO 1.2 format (section 1.5 of its guide) also
   * has `\n`, `\W`, `\t`, `\"` and `\\`, which are not among them.
   */
  const EscapeChars: set<char> := {'!', ':', ',', '(', ')', '[', ']', '{', '}'}

  /**
   * `bal::replace_all(s, p, q)`: search left to right for `p`, replace each
   * occurrence by `q`, and resume the search after the replaced occurrence.
   */
  function ReplaceAll(s: string, p: string, q: string): (r: string)
    requires |p| > 0
    ensures |s| < |p| ==> r == s
    decreases |s|
  {
    if |s| < |p| then s
    else if s[..|p|] == p then q + ReplaceAll(s[|p|..], p, q)
    else [s[0]] + ReplaceAll(s[1..], p, q)
  }

  /** Number of positions where a backslash is followed by one of `chars`. */
  function EscapePairs(s: string, chars: set<char>): nat
    decreases |s|
  {
    if |s| < 2 then 0
    else (if s[0] == '\\' && s[1] in chars then 1 else 0) + EscapePairs(s[1..], chars)
  }

  /**
   * Reference for `escape_copy`: one extra backslash before every backslash
   * that is followed by one of `chars`, every other character copied.
   */
  function Escaped(s: string, chars: set<char>): (r: string)
    requires '\\' !in chars
    ensures |r| == |s| + EscapePairs(s, chars)
    ensures |s| >= 1 ==> |r| >= 1 && r[0] == s[0]
    ensures EscapePairs(s, chars) == 0 ==> r == s
    decreases |s|
  {
    if |s| < 2 then s
    else if s[0] == '\\' && s[1] in chars then
      assert EscapePairs(s[1..], chars) == EscapePairs(s[2..], chars);
      ['\\', '\\', s[1]] + Escaped(s[2..], chars)
    else [s[0]] + Escaped(s[1..], chars)
  }

  /** With no characters to escape, the reference pass is the identity. */
  lemma {:induction false} EscapedNothing(s: string)
    ensures Escaped(s, {}) == s
    decreases |s|
  {
    if |s| >= 2 {
      EscapedNothing(s[1..]);
    }
  }

  /** `ReplaceAll` moves past a first character that does not start the pattern. */
  lemma ReplaceAllCons(t: string, p: string, q: string)
    requires |p| > 0 && |t| >= 1
    requires !(|t| >= |p| && t[..|p|] == p)
    ensures ReplaceAll(t, p, q) == [t[0]] + ReplaceAll(t[1..], p, q)
  {
  }

  /**
   * One `replace_all` of `\c` by `\\c` on text already escaped for `chars`
   * completes the escaping for `chars + {c}`: the earlier passes neither hide
   * nor create an occurrence of `\c`.
   */
  lemma {:induction false} ReplaceAllExtendsEscape(s: string, chars: set<char>, c: char)
    requires '\\' !in chars && c != '\\' && c !in chars
    ensures ReplaceAll(Escaped(s, chars), ['\\', c], ['\\', '\\', c]) == Escaped(s, chars + {c})
    decreases |s|
  {
    if |s| < 2 {
      assert Escaped(s, chars) == s;
    } else if s[0] == '\\' && s[1] in chars {
      StepOtherEscape(s, chars, c);
      ReplaceAllExtendsEscape(s[2..], chars, c);
    } else if s[0] == '\\' && s[1] == c {
      StepNewEscape(s, chars, c);
      ReplaceAllExtendsEscape(s[2..], chars, c);
    } else {
      StepPlain(s, chars, c);
      ReplaceAllExtendsEscape(s[1..], chars, c);
    }
  }

  /** An escape already doubled is passed over by the search for `\c`. */
  lemma StepOtherEscape(s: string, chars: set<char>, c: char)
    requires '\\' !in chars && c != '\\' && c !in chars
    requires |s| >= 2 && s[0] == '\\' && s[1] in chars
    ensures ReplaceAll(Escaped(s, chars), ['\\', c], ['\\', '\\', c])
      == ['\\', '\\', s[1]] + ReplaceAll(Escaped(s[2..], chars), ['\\', c], ['\\', '\\', c])
    ensures Escaped(s, chars + {c}) == ['\\', '\\', s[1]] + Escaped(s[2..], chars + {c})
  {
    ReplaceAllSkipsDoubled(s[1], Escaped(s[2..], chars), c);
  }

  /** The search for `\c` finds nothing in a doubled backslash followed by a character other than `c`. */
  lemma ReplaceAllSkipsDoubled(a: char, rest: string, c: char)
    requires a != c && a != '\\' && c != '\\'
    ensures ReplaceAll(['\\', '\\', a] + rest, ['\\', c], ['\\', '\\', c])
      == ['\\', '\\', a] + ReplaceAll(rest, ['\\', c], ['\\', '\\', c])
  {
    var p, q := ['\\', c], ['\\', '\\', c];
    var e2 := [a] + rest;
    var e1 := ['\\'] + e2;
    var e := ['\\'] + e1;
    assert ['\\', '\\', a] + rest == e;
    assert e[1] != p[1];
    ReplaceAllCons(e, p, q);
    assert e[1..] == e1;
    assert e1[1] != p[1];
    ReplaceAllCons(e1, p, q);
    assert e1[1..] == e2;
    assert e2[0] != p[0];
    ReplaceAllCons(e2, p, q);
    assert e2[1..] == rest;
  }

  /** An occurrence of `\c` is doubled. */
  lemma StepNewEscape(s: string, chars: set<char>, c: char)
    requires '\\' !in chars && c != '\\' && c !in chars
    requires |s| >= 2 && s[0] == '\\' && s[1] == c
    ensures ReplaceAll(Escaped(s, chars), ['\\', c], ['\\', '\\', c])
      == ['\\', '\\', c] + ReplaceAll(Escaped(s[2..], chars), ['\\', c], ['\\', '\\', c])
    ensures Escaped(s, chars + {c}) == ['\\', '\\', c] + Escaped(s[2..], chars + {c})
  {
    var p := ['\\', c];
    var e := Escaped(s, chars);
    var rest := Escaped(s[2..], chars);
    assert Escaped(s[1..], chars) == [c] + rest by {
      assert s[1..][1..] == s[2..];
    }
    assert e == p + rest;
    assert e[..|p|] == p;
    assert e[|p|..] == rest;
  }

  /** Any other character is copied by both. */
  lemma StepPlain(s: string, chars: set<char>, c: char)
    requires '\\' !in chars && c != '\\' && c !in chars
    requires |s| >= 2 && !(s[0] == '\\' && (s[1] in chars || s[1] == c))
    ensures ReplaceAll(Escaped(s, chars), ['\\', c], ['\\', '\\', c])
      == [s[0]] + ReplaceAll(Escaped(s[1..], chars), ['\\', c], ['\\', '\\', c])
    ensures Escaped(s, chars + {c}) == [s[0]] + Escaped(s[1..], chars + {c})
  {
    var p, q := ['\\', c], ['\\', '\\', c];
    var e := Escaped(s, chars);
    var rest := Escaped(s[1..], chars);
    assert e == [s[0]] + rest;
    assert rest[0] == s[1];
    ReplaceAllCons(e, p, q);
    assert e[1..] == rest;
  }

  /**
   * `escape_copy`: the nine `replace_all` calls of the source, in the
   * source's order. Together they double exactly the backslash of each OBO
   * escape.
   */
  method EscapeCopy(str: string) returns (copy: string)
    ensures copy == Escaped(str, EscapeChars)
  {
    copy := str;
    EscapedNothing(str);
    ghost var done: set<char> := {};
    copy := ReplaceAll(copy, "\\!", "\\\\!");
    ReplaceAllExtendsEscape(str, done, '!');
    done := done + {'!'};
    copy := ReplaceAll(copy, "\\:", "\\\\:");
    ReplaceAllExtendsEscape(str, done, ':');
    done := done + {':'};
    copy := ReplaceAll(copy, "\\,", "\\\\,");
    ReplaceAllExtendsEscape(str, done, ',');
    done := done + {','};
    copy := ReplaceAll(copy, "\\(", "\\\\(");
    ReplaceAllExtendsEscape(str, done, '(');
    done := done + {'('};
    copy := ReplaceAll(copy, "\\)", "\\\\)");
    ReplaceAllExtendsEscape(str, done, ')');
    done := done + {')'};
    copy := ReplaceAll(copy, "\\[", "\\\\[");
    ReplaceAllExtendsEscape(str, done, '[');
    done := done + {'['};
    copy := ReplaceAll(copy, "\\]", "\\\\]");
    ReplaceAllExtendsEscape(str, done, ']');
    done := done + {']'};
    copy := ReplaceAll(copy, "\\{", "\\\\{");
    ReplaceAllExtendsEscape(str, done, '{');
    done := done + {'{'};
    copy := ReplaceAll(copy, "\\}", "\\\\}");
    ReplaceAllExtendsEscape(str, done, '}');
    done := done + {'}'};
    assert done == EscapeChars;
  }

  /**
   * The character a C++ simple escape sequence `\c` stands for. An escape
   * C++ does not define (such as `\:`) is conditionally supported; the
   * common compilers drop the backslash, which is what is modelled here.
   */
  function SimpleEscapeValue(c: char): char {
    match c
    case 'a' => 7 as char
    case 'b' => 8 as char
    case 't' => '\t'
    case 'n' => '\n'
    case 'v' => 11 as char
    case 'f' => 12 as char
    case 'r' => '\r'
    case _ => c
  }

  predicate IsOctalDigit(c: char) {
    '0' <= c <= '7'
  }

  predicate IsHexDigit(c: char) {
    IsDigit(c) || 'a' <= c <= 'f' || 'A' <= c <= 'F'
  }

  function HexDigitValue(c: char): (v: nat)
    requires IsHexDigit(c)
    ensures v < 16
    ensures IsOctalDigit(c) ==> v < 8
  {
    if IsDigit(c) then c as int - '0' as int
    else if 'a' <= c <= 'f' then c as int - 'a' as int + 10
    else c as int - 'A' as int + 10
  }

  /** The value of the digits `s` in base `base`, most significant first. */
  function NumberValue(s: string, base: nat): nat
    requires forall i :: 0 <= i < |s| ==> IsHexDigit(s[i])
  {
    if s == [] then 0 else NumberValue(s[..|s| - 1], base) * base + HexDigitValue(s[|s| - 1])
  }

  /** The octal digits an escape `\ooo` takes: as many as follow, up to three. */
  function OctalRun(s: string): (n: nat)
    ensures n <= 3 && n <= |s|
    ensures forall i :: 0 <= i < n ==> IsOctalDigit(s[i])
    ensures n < 3 && n < |s| ==> !IsOctalDigit(s[n])
  {
    if s == [] || !IsOctalDigit(s[0]) then 0
    else if |s| == 1 || !IsOctalDigit(s[1]) then 1
    else if |s| == 2 || !IsOctalDigit(s[2]) then 2
    else 3
  }

  /** The hexadecimal digits an escape `\x` takes: all that follow. */
  function HexRun(s: string): (n: nat)
    ensures n <= |s|
    ensures forall i :: 0 <= i < n ==> IsHexDigit(s[i])
    ensures n < |s| ==> !IsHexDigit(s[n])
  {
    if s == [] || !IsHexDigit(s[0]) then 0 else 1 + HexRun(s[1..])
  }

  function Prepend(c: char, r: Option<string>): (p: Option<string>)
    ensures p.Some? <==> r.Some?
    ensures r.Some? ==> p.value == [c] + r.value
  {
    match r
    case None => None
    case Some(v) => Some([c] + v)
  }

  /**
   * The first character a narrow string literal whose body starts with
   * `text` stands for, and how many characters of the body give it; `None`
   * when the body does not go on as one literal with a value modelled here:
   * an unescaped `"` ends the literal early, a line break (LF or CR) inside it
   * or a trailing lone backslash leaves it unterminated, a `\x` without
   * digits or an octal or hexadecimal escape above 0xFF is ill-formed, and the
   * universal character names `\u` and `\U` are not decoded. Octal escapes
   * take up to three digits, hexadecimal escapes all the hexadecimal digits
   * that follow.
   */
  function LexChar(text: string): (r: Option<(char, nat)>)
    requires text != []
    ensures r.Some? ==> 0 < r.value.1 <= |text|
  {
    if text[0] == '"' || text[0] == '\n' || text[0] == '\r' then None
    else if text[0] != '\\' then Some((text[0], 1))
    else if |text| == 1 then None
    else if IsOctalDigit(text[1]) then
      var n := OctalRun(text[1..]);
      var v := NumberValue(text[1..1 + n], 8);
      if v > 0xFF then None else Some((v as char, 1 + n))
    else if text[1] == 'x' then
      var n := HexRun(text[2..]);
      var v := NumberValue(text[2..2 + n], 16);
      if n == 0 || v > 0xFF then None else Some((v as char, 2 + n))
    else if text[1] == 'u' || text[1] == 'U' || text[1] == '\n' || text[1] == '\r' then None
    else Some((SimpleEscapeValue(text[1]), 2))
  }

  /**
   * The value the C++ compiler gives a narrow string literal whose body (the
   * text between its quotes) is `text`, character by character as `LexChar`
   * reads them; `None` when some step of that reading fails.
   */
  function CompileLiteral(text: string): (r: Option<string>)
    decreases |text|
  {
    if text == [] then Some([])
    else
      match LexChar(text)
      case None => None
      case Some(step) => Prepend(step.0, CompileLiteral(text[step.1..]))
  }

  /** A character other than a quote, a line break or a backslash stands for itself. */
  lemma CompilePlainChar(c: char, rest: string)
    requires c != '"' && c != '\n' && c != '\r' && c != '\\'
    ensures CompileLiteral([c] + rest) == Prepend(c, CompileLiteral(rest))
  {
    assert LexChar([c] + rest) == Some((c, 1));
    assert ([c] + rest)[1..] == rest;
  }

  /** A simple escape `\c` stands for one character. */
  lemma CompileSimpleEscape(c: char, rest: string)
    requires !IsOctalDigit(c) && c != 'x' && c != 'u' && c != 'U' && c != '\n' && c != '\r'
    ensures CompileLiteral(['\\', c] + rest) == Prepend(SimpleEscapeValue(c), CompileLiteral(rest))
  {
    assert LexChar(['\\', c] + rest) == Some((SimpleEscapeValue(c), 2));
    assert (['\\', c] + rest)[2..] == rest;
  }

  /** No character of `s` ends or breaks the literal it is written into. */
  predicate NoQuoteOrLineBreak(s: string)
    decreases |s|
  {
    s == [] || (s[0] != '"' && s[0] != '\n' && s[0] != '\r' && NoQuoteOrLineBreak(s[1..]))
  }

  /** Every backslash of `s` is followed by one of `! : , ( ) [ ] { }` (`EscapeChars`). */
  predicate OboEscapesOnly(s: string) {
    forall i :: 0 <= i < |s| && s[i] == '\\' ==> i + 1 < |s| && s[i + 1] in EscapeChars
  }

  lemma OboEscapesOnlyTail(s: string, d: nat)
    requires OboEscapesOnly(s) && d <= |s|
    ensures OboEscapesOnly(s[d..])
  {
    forall i | 0 <= i < |s[d..]| && s[d..][i] == '\\'
      ensures i + 1 < |s[d..]| && s[d..][i + 1] in EscapeChars
    {
      assert s[i + d] == '\\';
    }
  }

  /**
   * Round trip: for text whose backslashes all precede a character of
   * `EscapeChars`, the literal
   * emitted after `escape_copy` compiles back to the original text exactly
   * when the text holds no `"` and no line break; otherwise it does not
   * compile.
   */
  lemma {:induction false} CompileEscaped(s: string)
    requires OboEscapesOnly(s)
    ensures CompileLiteral(Escaped(s, EscapeChars)) == if NoQuoteOrLineBreak(s) then Some(s) else None
    decreases |s|
  {
    if s == [] {
    } else if s[0] == '\\' {
      OboEscapesOnlyTail(s, 2);
      CompileEscaped(s[2..]);
      EscapedPairUnfold(s, EscapeChars);
      PairStep(s[1], Escaped(s[2..], EscapeChars), s[2..]);
    } else {
      OboEscapesOnlyTail(s, 1);
      CompileEscaped(s[1..]);
      EscapedPlainUnfold(s);
      CopyStep(s[0], Escaped(s[1..], EscapeChars), s[1..]);
    }
  }

  lemma EscapedPairUnfold(s: string, chars: set<char>)
    requires '\\' !in chars && |s| >= 2 && s[0] == '\\' && s[1] in chars
    ensures Escaped(s, chars) == ['\\', '\\'] + ([s[1]] + Escaped(s[2..], chars))
    ensures s == ['\\'] + ([s[1]] + s[2..])
  {
    assert s == [s[0], s[1]] + s[2..];
  }

  lemma PairStep(c: char, rest: string, tail: string)
    requires c in EscapeChars
    requires CompileLiteral(rest) == if NoQuoteOrLineBreak(tail) then Some(tail) else None
    ensures CompileLiteral(['\\', '\\'] + ([c] + rest)) == if NoQuoteOrLineBreak(['\\'] + ([c] + tail)) then Some(['\\'] + ([c] + tail)) else None
  {
    CompileSimpleEscape('\\', [c] + rest);
    CompilePlainChar(c, rest);
    assert (['\\'] + ([c] + tail))[1..] == [c] + tail;
    assert ([c] + tail)[1..] == tail;
  }

  lemma EscapedPlainUnfold(s: string)
    requires |s| >= 1 && s[0] != '\\'
    ensures Escaped(s, EscapeChars) == [s[0]] + Escaped(s[1..], EscapeChars)
    ensures s == [s[0]] + s[1..]
  {
    if |s| == 1 {
      assert s[1..] == [];
    }
  }

  lemma CopyStep(c: char, rest: string, tail: string)
    requires c != '\\'
    requires CompileLiteral(rest) == if NoQuoteOrLineBreak(tail) then Some(tail) else None
    ensures CompileLiteral([c] + rest) == if NoQuoteOrLineBreak([c] + tail) then Some([c] + tail) else None
  {
    assert ([c] + tail)[1..] == tail;
    if c != '"' && c != '\n' && c != '\r' {
      CompilePlainChar(c, rest);
    }
  }

  /** With no backslash, escaping is the identity. */
  lemma {:induction false} NoBackslashNotEscaped(s: string)
    requires '\\' !in s
    ensures Escaped(s, EscapeChars) == s
    decreases |s|
  {
    if |s| >= 2 {
      assert s[0] != '\\';
      assert '\\' !in s[1..];
      NoBackslashNotEscaped(s[1..]);
      assert Escaped(s, EscapeChars) == [s[0]] + Escaped(s[1..], EscapeChars);
      assert s == [s[0]] + s[1..];
    }
  }

  /**
   * Text without a backslash is not changed by escaping, and compiles to
   * itself unless it holds a `"` or a line break, in which case it does not
   * compile.
   */
  lemma NoBackslashUnchanged(s: string)
    requires '\\' !in s
    ensures Escaped(s, EscapeChars) == s
    ensures CompileLiteral(s) == if NoQuoteOrLineBreak(s) then Some(s) else None
  {
    NoBackslashNotEscaped(s);
    CompileEscaped(s);
  }

  /** A character that a literal holds verbatim and that does not end a C string. */
  predicate PlainChar(c: char) {
    c != '\\' && c != '\0' && c != '"' && c != '\n' && c != '\r'
  }

  /** Text that a literal holds verbatim: no backslash, quote, line break or NUL. */
  predicate PlainText(s: string) {
    forall i :: 0 <= i < |s| ==> PlainChar(s[i])
  }

  /** Plain text, written as a literal, compiles to itself and holds no NUL. */
  lemma {:induction false} PlainTextCompiles(s: string)
    requires PlainText(s)
    ensures CompileLiteral(s) == Some(s) && '\0' !in s
    decreases |s|
  {
    if s != [] {
      assert PlainText(s[1..]) by {
        forall i | 0 <= i < |s[1..]| ensures PlainChar(s[1..][i]) {
          assert s[1..][i] == s[i + 1];
        }
      }
      PlainTextCompiles(s[1..]);
      assert PlainChar(s[0]);
      CompilePlainChar(s[0], s[1..]);
      assert s == [s[0]] + s[1..];
    }
  }

  /**
   * Why the doubling is needed: an OBO escape copied verbatim loses its
   * backslash in C++, and the octal and hexadecimal escapes of text written
   * unescaped are decoded.
   */
  lemma UnescapedLosesBackslash()
    ensures CompileLiteral("a\\:b") == Some("a:b")
    ensures CompileLiteral(Escaped("a\\:b", EscapeChars)) == Some("a\\:b")
  {
    VerbatimEscape();
    DoubledEscape();
  }

  lemma VerbatimEscape()
    ensures CompileLiteral("a\\:b") == Some("a:b")
  {
    CompilePlainChar('b', []);
    assert ['b'] + [] == "b";
    assert CompileLiteral("b") == Some("b");
    CompileSimpleEscape(':', "b");
    assert SimpleEscapeValue(':') == ':';
    assert ['\\', ':'] + "b" == "\\:b";
    assert [':'] + "b" == ":b";
    assert CompileLiteral("\\:b") == Some(":b");
    CompilePlainChar('a', "\\:b");
    assert ['a'] + "\\:b" == "a\\:b";
    assert ['a'] + ":b" == "a:b";
  }

  lemma DoubledEscape()
    ensures CompileLiteral(Escaped("a\\:b", EscapeChars)) == Some("a\\:b")
  {
    var s := "a\\:b";
    assert s[1..] == "\\:b" && "\\:b"[1..] == ":b" && ":b"[1..] == "b" && "b"[1..] == [];
    assert NoQuoteOrLineBreak("b") && NoQuoteOrLineBreak(":b") && NoQuoteOrLineBreak("\\:b") && NoQuoteOrLineBreak(s);
    assert OboEscapesOnly(s);
    CompileEscaped(s);
  }

  /** How `LexChar` reads an octal escape. */
  lemma LexOctal(text: string)
    requires |text| >= 2 && text[0] == '\\' && IsOctalDigit(text[1])
    ensures LexChar(text) == (var n := OctalRun(text[1..]); var v := NumberValue(text[1..1 + n], 8); if v > 0xFF then None else Some((v as char, 1 + n)))
  {
  }

  /** How `LexChar` reads a hexadecimal escape. */
  lemma LexHex(text: string)
    requires |text| >= 2 && text[0] == '\\' && text[1] == 'x'
    ensures LexChar(text) == (var n := HexRun(text[2..]); var v := NumberValue(text[2..2 + n], 16); if n == 0 || v > 0xFF then None else Some((v as char, 2 + n)))
  {
  }

  /** Octal and hexadecimal escapes stand for the character with that code; a bare quote ends the literal. */
  lemma NumericEscapes()
    ensures CompileLiteral("\\101") == Some("A")
    ensures CompileLiteral("\\x41") == Some("A")
    ensures CompileLiteral("a\\0b") == Some("a\0b")
    ensures CompileLiteral("a\"b") == None
  {
    OctalEscape();
    HexEscape();
    NulEscape();
    CompilePlainChar('a', "\"b");
    assert ['a'] + "\"b" == "a\"b";
  }

  lemma OctalEscape()
    ensures CompileLiteral("\\101") == Some("A")
  {
    var oct := "\\101";
    assert oct[1..] == "101" && OctalRun("101") == 3 && oct[1..4] == "101" && oct[4..] == [];
    assert NumberValue("101", 8) == 65 by {
      assert "101"[..2] == "10" && "10"[..1] == "1" && "1"[..0] == [];
    }
    LexOctal(oct);
    assert LexChar(oct) == Some(('A', 4));
    assert CompileLiteral(oct) == Prepend('A', CompileLiteral([]));
    assert ['A'] + [] == "A";
  }

  lemma HexEscape()
    ensures CompileLiteral("\\x41") == Some("A")
  {
    var hex := "\\x41";
    assert hex[2..] == "41" && "41"[1..] == "1" && "1"[1..] == [];
    assert HexRun("1") == 1 && HexRun("41") == 2 && hex[2..4] == "41" && hex[4..] == [];
    assert NumberValue("41", 16) == 65 by {
      assert "41"[..1] == "4" && "4"[..0] == [];
    }
    LexHex(hex);
    assert LexChar(hex) == Some(('A', 4));
    assert CompileLiteral(hex) == Prepend('A', CompileLiteral([]));
    assert ['A'] + [] == "A";
  }

  lemma NulEscape()
    ensures CompileLiteral("a\\0b") == Some("a\0b")
  {
    var nul := "\\0b";
    assert nul[1..] == "0b" && OctalRun("0b") == 1 && nul[1..2] == "0" && nul[2..] == "b";
    assert NumberValue("0", 8) == 0 by {
      assert "0"[..0] == [];
    }
    LexOctal(nul);
    assert LexChar(nul) == Some(('\0', 2));
    assert CompileLiteral(nul) == Prepend('\0', CompileLiteral("b"));
    CompilePlainChar('b', []);
    assert ['b'] + [] == "b";
    assert ['\0'] + "b" == "\0b";
    CompilePlainChar('a', nul);
    assert ['a'] + nul == "a\\0b";
    assert ['a'] + "\0b" == "a\0b";
  }
}
