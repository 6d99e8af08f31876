/**
 * The two sanitisers that prepare the bundled script for a generated C++
 * source file: `cpp_name_sanitise` turns the package name into a symbol,
 * `cpp_string_sanitise` escapes the script text so that it can stand
 * between the quotes of a C++ string literal.
 */
module Sanitise {
  import opened Wrappers
  import opened Text

  /** The characters `cpp_name_sanitise` replaces by `_`. */
  const NameForbidden: set<char> := {'-', '\\', '?', '\'', '"'}

  /** `"0123456789".indexOf(c) != -1` for a one-character string `c`. */
  predicate IsDigit(c: char)
  {
    '0' <= c <= '9'
  }

  /** Reference definition: one pass that maps each forbidden character to `_`. */
  function MapForbidden(name: string): (r: string)
    ensures |r| == |name|
  {
    seq(|name|, i requires 0 <= i < |name| => if name[i] in NameForbidden then '_' else name[i])
  }

  /** A global replacement by a single character keeps length and offsets. */
  lemma {:induction false} ReplaceByChar(s: string, c: char, d: char)
    ensures |ReplaceAll(s, c, [d])| == |s|
    ensures forall i :: 0 <= i < |s| ==> ReplaceAll(s, c, [d])[i] == if s[i] == c then d else s[i]
  {
    if s != [] {
      ReplaceByChar(s[1..], c, d);
    }
  }

  /** The five chained global replacements, in the order the script applies
      them; together they are the single pass of `MapForbidden`. */
  function ReplaceNameChars(name: string): (r: string)
    ensures r == MapForbidden(name)
  {
    var s1 := ReplaceAll(name, '-', "_");
    var s2 := ReplaceAll(s1, '\\', "_");
    var s3 := ReplaceAll(s2, '?', "_");
    var s4 := ReplaceAll(s3, '\'', "_");
    ReplaceByChar(name, '-', '_');
    ReplaceByChar(s1, '\\', '_');
    ReplaceByChar(s2, '?', '_');
    ReplaceByChar(s3, '\'', '_');
    ReplaceByChar(s4, '"', '_');
    ReplaceAll(s4, '"', "_")
  }

  /** `cpp_name_sanitise`: replace the forbidden characters, then prepend `_`
      when the result starts with a digit. An empty name stays empty, since
      `"0123456789".indexOf(undefined)` is -1. */
  function CppNameSanitise(name: string): (r: string)
    ensures forall i :: 0 <= i < |r| ==> r[i] !in NameForbidden
    ensures |r| == |name| + (if name != [] && IsDigit(name[0]) then 1 else 0)
    ensures forall i :: 0 <= i < |name| ==>
      r[i + |r| - |name|] == if name[i] in NameForbidden then '_' else name[i]
    ensures r == [] <==> name == []
    ensures r != [] ==> !IsDigit(r[0])
    ensures |r| > |name| ==> r[0] == '_'
  {
    var out := ReplaceNameChars(name);
    if out != [] && IsDigit(out[0]) then "_" + out else out
  }

  /** Sanitising a sanitised name changes nothing. */
  lemma CppNameSanitiseIdempotent(name: string)
    ensures CppNameSanitise(CppNameSanitise(name)) == CppNameSanitise(name)
  {
    var r := CppNameSanitise(name);
    var rr := CppNameSanitise(r);
    assert |rr| == |r|;
    assert forall i :: 0 <= i < |r| ==> rr[i] == r[i];
  }

  /** What `cpp_string_sanitise` writes for one input character. */
  function EscapeChar(c: char): string
  {
    if c == '\\' then "\\\\"
    else if c == '\n' then "\\n"
    else if c == '"' then "\\\""
    else [c]
  }

  /** Reference definition: escape every character in one left-to-right pass. */
  function Escape(s: string): string
  {
    if s == [] then [] else EscapeChar(s[0]) + Escape(s[1..])
  }

  /** `cpp_string_sanitise`: backslashes first, then newlines, then double
      quotes. Because backslashes are replaced first, no inserted escape is
      escaped again: the three chained passes equal the one-pass escape. */
  function CppStringSanitise(s: string): (r: string)
    ensures r == Escape(s)
  {
    ChainedEscapeIsEscape(s);
    ReplaceAll(ReplaceAll(ReplaceAll(s, '\\', "\\\\"), '\n', "\\n"), '"', "\\\"")
  }

  /** The induction behind `CppStringSanitise`'s contract. */
  lemma {:induction false} ChainedEscapeIsEscape(s: string)
    ensures ReplaceAll(ReplaceAll(ReplaceAll(s, '\\', "\\\\"), '\n', "\\n"), '"', "\\\"") == Escape(s)
  {
    if s != [] {
      var c, rest := s[0], s[1..];
      assert s == [c] + rest;
      ChainedEscapeAppend([c], rest);
      ChainedEscapeChar(c);
      ChainedEscapeIsEscape(rest);
    }
  }

  /** The chained replacements work piece by piece. */
  lemma ChainedEscapeAppend(a: string, b: string)
    ensures ReplaceAll(ReplaceAll(ReplaceAll(a + b, '\\', "\\\\"), '\n', "\\n"), '"', "\\\"")
         == ReplaceAll(ReplaceAll(ReplaceAll(a, '\\', "\\\\"), '\n', "\\n"), '"', "\\\"")
          + ReplaceAll(ReplaceAll(ReplaceAll(b, '\\', "\\\\"), '\n', "\\n"), '"', "\\\"")
  {
    var a1, b1 := ReplaceAll(a, '\\', "\\\\"), ReplaceAll(b, '\\', "\\\\");
    ReplaceAllAppend(a, b, '\\', "\\\\");
    var a2, b2 := ReplaceAll(a1, '\n', "\\n"), ReplaceAll(b1, '\n', "\\n");
    ReplaceAllAppend(a1, b1, '\n', "\\n");
    ReplaceAllAppend(a2, b2, '"', "\\\"");
  }

  /** On one character, the chained replacements give that character's escape. */
  lemma ChainedEscapeChar(c: char)
    ensures ReplaceAll(ReplaceAll(ReplaceAll([c], '\\', "\\\\"), '\n', "\\n"), '"', "\\\"") == EscapeChar(c)
  {
    var r1 := if c == '\\' then "\\\\" else [c];
    assert ReplaceAll([c], '\\', "\\\\") == r1;
    var r2 := if c == '\n' then "\\n" else r1;
    if c == '\\' {
      assert ReplaceAll(r1, '\n', "\\n") == r2 by {
        assert r1 == ['\\'] + ['\\'];
        ReplaceAllAppend(['\\'], ['\\'], '\n', "\\n");
      }
      assert ReplaceAll(r2, '"', "\\\"") == EscapeChar(c) by {
        assert r2 == ['\\'] + ['\\'];
        ReplaceAllAppend(['\\'], ['\\'], '"', "\\\"");
      }
    } else if c == '\n' {
      assert ReplaceAll(r1, '\n', "\\n") == r2;
      assert ReplaceAll(r2, '"', "\\\"") == EscapeChar(c) by {
        assert r2 == ['\\'] + ['n'];
        ReplaceAllAppend(['\\'], ['n'], '"', "\\\"");
      }
    } else {
      assert ReplaceAll(r1, '\n', "\\n") == r2;
      assert ReplaceAll(r2, '"', "\\\"") == EscapeChar(c);
    }
  }

  /** C-style reading of a literal body, with the three escapes the sanitiser
      emits; a raw `"` (it would close the literal), a raw newline or any other
      escape is rejected. */
  function Unescape(t: string): Option<string>
  {
    if t == [] then Some([])
    else if t[0] == '\\' then
      if |t| >= 2 && (t[1] == '\\' || t[1] == 'n' || t[1] == '"') then
        match Unescape(t[2..])
        case None => None
        case Some(rest) => Some([if t[1] == 'n' then '\n' else t[1]] + rest)
      else None
    else if t[0] == '"' || t[0] == '\n' then None
    else
      match Unescape(t[1..])
      case None => None
      case Some(rest) => Some([t[0]] + rest)
  }

  /** Reading the sanitised text back as a C++ literal body yields the original text. */
  lemma {:induction false} UnescapeCppStringSanitise(s: string)
    ensures Unescape(CppStringSanitise(s)) == Some(s)
  {
    UnescapeEscape(s);
  }

  lemma {:induction false} UnescapeEscape(s: string)
    ensures Unescape(Escape(s)) == Some(s)
  {
    if s != [] {
      UnescapeEscape(s[1..]);
      var t := Escape(s);
      assert s == [s[0]] + s[1..];
      if s[0] == '\\' || s[0] == '\n' || s[0] == '"' {
        assert t[2..] == Escape(s[1..]);
      } else {
        assert t[1..] == Escape(s[1..]);
      }
    }
  }

  /** The escaping is the only way to write a text with these three escapes:
      any body that reads back as `s` is exactly the sanitised `s`. */
  lemma EscapeUnescape(t: string, s: string)
    requires Unescape(t) == Some(s)
    ensures CppStringSanitise(s) == t
  {
    EscapeOfUnescape(t, s);
  }

  lemma {:induction false} EscapeOfUnescape(t: string, s: string)
    requires Unescape(t) == Some(s)
    ensures Escape(s) == t
  {
    if t != [] {
      if t[0] == '\\' {
        EscapeOfUnescape(t[2..], s[1..]);
        assert EscapeChar(s[0]) == t[..2];
        assert t == t[..2] + t[2..];
      } else {
        EscapeOfUnescape(t[1..], s[1..]);
        assert t == [t[0]] + t[1..];
      }
    }
  }

  /** The sanitised text holds no raw newline, and each `"` in it follows a backslash. */
  lemma CppStringSanitiseShape(s: string)
    ensures '\n' !in CppStringSanitise(s)
    ensures forall i :: 0 <= i < |CppStringSanitise(s)| && CppStringSanitise(s)[i] == '"' ==>
      i > 0 && CppStringSanitise(s)[i - 1] == '\\'
  {
    EscapeShape(s);
  }

  lemma {:induction false} EscapeShape(s: string)
    ensures '\n' !in Escape(s)
    ensures forall i :: 0 <= i < |Escape(s)| && Escape(s)[i] == '"' ==> i > 0 && Escape(s)[i - 1] == '\\'
  {
    if s != [] {
      EscapeShape(s[1..]);
      var e, t := EscapeChar(s[0]), Escape(s[1..]);
      assert Escape(s) == e + t;
      forall i | 0 <= i < |e + t| && (e + t)[i] == '"'
        ensures i > 0 && (e + t)[i - 1] == '\\'
      {
        if i >= |e| {
          assert (e + t)[i] == t[i - |e|];
          if i - |e| == 0 {
            assert false;
          }
          assert (e + t)[i - 1] == t[i - 1 - |e|];
        }
      }
    }
  }

  /** The escaped text is longer by one for every backslash, newline and `"`. */
  lemma {:induction false} CppStringSanitiseLength(s: string)
    ensures |CppStringSanitise(s)| == |s| + Count(s, '\\') + Count(s, '\n') + Count(s, '"')
  {
    EscapeLength(s);
  }

  lemma {:induction false} EscapeLength(s: string)
    ensures |Escape(s)| == |s| + Count(s, '\\') + Count(s, '\n') + Count(s, '"')
  {
    if s != [] {
      EscapeLength(s[1..]);
    }
  }

  /** A backslash followed by a newline becomes four characters, `\\\n`:
      the backslash inserted for the newline is not escaped again. */
  lemma BackslashNewline()
    ensures CppStringSanitise("\\\n") == "\\\\\\n"
  {
    assert "\\\n"[1..] == "\n";
    assert "\n"[1..] == [];
  }

  /** The same three replacements with double quotes first would escape the
      backslash inserted for `"` a second time, and `"` would read back as `\"`. */
  lemma QuotesFirstDoubleEscapes()
    ensures ReplaceAll(ReplaceAll(ReplaceAll("\"", '"', "\\\""), '\n', "\\n"), '\\', "\\\\") == "\\\\\""
    ensures Unescape("\\\\\"") == None
  {
    assert ReplaceAll("\"", '"', "\\\"") == "\\\"";
    assert ReplaceAll("\\\"", '\n', "\\n") == "\\\"" by {
      ReplaceAllAppend("\\", "\"", '\n', "\\n");
    }
    ReplaceAllAppend("\\", "\"", '\\', "\\\\");
    assert "\\\\\""[2..] == "\"";
  }
}
