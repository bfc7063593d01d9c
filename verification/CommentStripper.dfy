/** The header test's comment stripper: a scanner with three modes. */
module CommentStripper {

  datatype Mode = Code | Line | Block

  /** What the scanner emits for the rest of the input, from a given mode. */
  function Strip(s: string, mode: Mode): string
    decreases |s|
  {
    if s == [] then []
    else match mode
      case Block =>
        if s[0] == '*' && |s| > 1 && s[1] == '/' then [' '] + Strip(s[2..], Code)
        else (if s[0] == '\n' then ['\n'] else []) + Strip(s[1..], Block)
      case Line =>
        if s[0] == '\n' then ['\n'] + Strip(s[1..], Code) else Strip(s[1..], Line)
      case Code =>
        if Opens(s, '*') then Strip(s[2..], Block)
        else if Opens(s, '/') then Strip(s[2..], Line)
        else [s[0]] + Strip(s[1..], Code)
  }

  /** The input starts with a slash and `c`. */
  predicate Opens(s: string, c: char) { |s| > 1 && s[0] == '/' && s[1] == c }

  lemma Assoc(a: string, b: string, c: string)
    ensures a + (b + c) == (a + b) + c
  {
  }

  method StripComments(src: string) returns (out: string)
    ensures out == Strip(src, Code)
  {
    out := [];
    var i, inBlock, inLine := 0, false, false;
    ghost var mode := Code;
    assert src[0..] == src && [] + Strip(src, Code) == Strip(src, Code);
    while i < |src|
      invariant 0 <= i <= |src| && !(inBlock && inLine)
      invariant mode == if inBlock then Block else if inLine then Line else Code
      invariant Strip(src, Code) == out + Strip(src[i..], mode)
    {
      assert src[i..][1..] == src[i + 1..] && (i + 1 < |src| ==> src[i..][2..] == src[i + 2..]);
      if inBlock {
        if src[i] == '*' && i + 1 < |src| && src[i + 1] == '/' {
          Assoc(out, [' '], Strip(src[i + 2..], Code));
          inBlock, mode := false, Code;
          out := out + [' '];
          i := i + 2;
          continue;
        }
        if src[i] == '\n' {
          Assoc(out, ['\n'], Strip(src[i + 1..], Block));
          out := out + ['\n'];
        } else {
          Assoc(out, [], Strip(src[i + 1..], Block));
          assert out + [] == out;
        }
        i := i + 1;
        continue;
      }
      if inLine {
        if src[i] == '\n' {
          Assoc(out, ['\n'], Strip(src[i + 1..], Code));
          inLine, mode := false, Code;
          out := out + ['\n'];
        }
        i := i + 1;
        continue;
      }
      if src[i] == '/' && i + 1 < |src| && src[i + 1] == '*' {
        inBlock, mode := true, Block;
        i := i + 2;
        continue;
      }
      if src[i] == '/' && i + 1 < |src| && src[i + 1] == '/' {
        inLine, mode := true, Line;
        i := i + 2;
        continue;
      }
      Assoc(out, [src[i]], Strip(src[i + 1..], Code));
      out := out + [src[i]];
      i := i + 1;
    }
    assert src[i..] == [] && out + [] == out;
  }

  // ---------------------------------------------------------------- what comes out

  function Newlines(s: string): nat {
    if s == [] then 0 else (if s[0] == '\n' then 1 else 0) + Newlines(s[1..])
  }

  lemma {:induction false} NewlinesAppend(a: string, b: string)
    ensures Newlines(a + b) == Newlines(a) + Newlines(b)
  {
    if a == [] {
      assert a + b == b;
    } else {
      NewlinesAppend(a[1..], b);
      assert (a + b)[1..] == a[1..] + b;
    }
  }

  lemma NewlinesSkip2(s: string)
    requires |s| > 1 && s[0] != '\n' && s[1] != '\n'
    ensures Newlines(s) == Newlines(s[2..])
  {
    assert s[1..][1..] == s[2..];
  }

  /** Line numbers survive: every input, comments terminated or not, keeps its number of newlines. */
  lemma {:induction false} NewlinesPreserved(s: string, mode: Mode)
    ensures Newlines(Strip(s, mode)) == Newlines(s)
    decreases |s|
  {
    if s != [] {
      match mode
      case Block =>
        if s[0] == '*' && |s| > 1 && s[1] == '/' {
          NewlinesPreserved(s[2..], Code);
          NewlinesAppend([' '], Strip(s[2..], Code));
          NewlinesSkip2(s);
        } else {
          NewlinesPreserved(s[1..], Block);
          NewlinesAppend(if s[0] == '\n' then ['\n'] else [], Strip(s[1..], Block));
        }
      case Line =>
        NewlinesPreserved(s[1..], if s[0] == '\n' then Code else Line);
        NewlinesAppend(['\n'], Strip(s[1..], Code));
      case Code =>
        if Opens(s, '*') || Opens(s, '/') {
          NewlinesPreserved(s[2..], if Opens(s, '*') then Block else Line);
          NewlinesSkip2(s);
        } else {
          NewlinesPreserved(s[1..], Code);
          NewlinesAppend([s[0]], Strip(s[1..], Code));
        }
    }
  }

  /** No comment starts anywhere in `s`. */
  ghost predicate NoOpener(s: string) {
    forall i :: 0 <= i < |s| - 1 && s[i] == '/' ==> s[i + 1] != '*' && s[i + 1] != '/'
  }

  lemma NoOpenerCons(c: char, s: string)
    requires NoOpener(s) && (c != '/' || s == [] || (s[0] != '*' && s[0] != '/'))
    ensures NoOpener([c] + s)
  {
    var t := [c] + s;
    forall i | 0 <= i < |t| - 1 && t[i] == '/' ensures t[i + 1] != '*' && t[i + 1] != '/' {
      if i > 0 {
        assert t[i] == s[i - 1] && t[i + 1] == s[i];
      }
    }
  }

  /** The output contains neither comment opener. */
  lemma {:induction false} OutputHasNoOpener(s: string, mode: Mode)
    ensures NoOpener(Strip(s, mode))
    decreases |s|
  {
    if s != [] {
      match mode
      case Block =>
        if s[0] == '*' && |s| > 1 && s[1] == '/' {
          OutputHasNoOpener(s[2..], Code);
          NoOpenerCons(' ', Strip(s[2..], Code));
        } else {
          OutputHasNoOpener(s[1..], Block);
          NoOpenerCons('\n', Strip(s[1..], Block));
          assert [] + Strip(s[1..], Block) == Strip(s[1..], Block);
        }
      case Line =>
        OutputHasNoOpener(s[1..], Code);
        OutputHasNoOpener(s[1..], Line);
        NoOpenerCons('\n', Strip(s[1..], Code));
      case Code =>
        if Opens(s, '*') {
          OutputHasNoOpener(s[2..], Block);
        } else if Opens(s, '/') {
          OutputHasNoOpener(s[2..], Line);
        } else {
          OutputHasNoOpener(s[1..], Code);
          NoOpenerCons(s[0], Strip(s[1..], Code));
        }
    }
  }

  /** Text without comments passes through, with anything after it scanned as before. */
  lemma {:induction false} CodePassesThrough(code: string, rest: string)
    requires NoOpener(code)
    requires code == [] || code[|code| - 1] != '/' || rest == [] || (rest[0] != '*' && rest[0] != '/')
    ensures Strip(code + rest, Code) == code + Strip(rest, Code)
    decreases |code|
  {
    if code == [] {
      assert code + rest == rest && code + Strip(rest, Code) == Strip(rest, Code);
    } else {
      assert NoOpener(code[1..]) by {
        assert forall i :: 0 <= i < |code[1..]| ==> code[1..][i] == code[i + 1];
      }
      CodePassesThrough(code[1..], rest);
      var s := code + rest;
      assert s[1..] == code[1..] + rest && s[0] == code[0];
      assert |s| > 1 ==> s[1] == if |code| > 1 then code[1] else rest[0];
      assert code == [code[0]] + code[1..];
    }
  }

  /** Stripping is idempotent. */
  lemma StripIdempotent(s: string)
    ensures Strip(Strip(s, Code), Code) == Strip(s, Code)
  {
    var out := Strip(s, Code);
    OutputHasNoOpener(s, Code);
    CodePassesThrough(out, []);
    assert out + [] == out;
  }

  // ---------------------------------------------------------------- what a comment becomes

  ghost predicate NoCloser(s: string) {
    forall i :: 0 <= i < |s| - 1 && s[i] == '*' ==> s[i + 1] != '/'
  }

  function Repeat(n: nat): string { if n == 0 then [] else ['\n'] + Repeat(n - 1) }

  lemma {:induction false} BlockBody(body: string, rest: string)
    requires NoCloser(body + "*")
    ensures Strip(body + "*/" + rest, Block) == Repeat(Newlines(body)) + (" " + Strip(rest, Code))
  {
    var s := body + "*/" + rest;
    if body == [] {
      assert s[2..] == rest && s[0] == '*' && s[1] == '/';
      assert Repeat(0) + (" " + Strip(rest, Code)) == " " + Strip(rest, Code);
    } else {
      var tail := body[1..];
      assert (body + "*")[0] == '*' ==> (body + "*")[1] != '/';
      assert NoCloser(tail + "*") by {
        assert forall i :: 0 <= i < |tail + "*"| ==> (tail + "*")[i] == (body + "*")[i + 1];
      }
      BlockBody(tail, rest);
      assert s[1..] == tail + "*/" + rest && s[0] == body[0] && s[1] == (body + "*")[1];
      assert [] + Strip(s[1..], Block) == Strip(s[1..], Block);
      Assoc(['\n'], Repeat(Newlines(tail)), " " + Strip(rest, Code));
    }
  }

  /** A block comment becomes its newlines and one space. */
  lemma BlockCommentBecomesSpace(body: string, rest: string)
    requires NoCloser(body + "*")
    ensures Strip("/*" + body + "*/" + rest, Code) == Repeat(Newlines(body)) + (" " + Strip(rest, Code))
  {
    var s := "/*" + body + "*/" + rest;
    assert s[0] == '/' && s[1] == '*' && s[2..] == body + "*/" + rest;
    BlockBody(body, rest);
  }

  lemma {:induction false} LineBody(body: string, rest: string)
    requires '\n' !in body
    ensures Strip(body + "\n" + rest, Line) == "\n" + Strip(rest, Code)
  {
    var s := body + "\n" + rest;
    if body == [] {
      assert s[1..] == rest && s[0] == '\n';
    } else {
      assert s[0] == body[0] && body[0] in body && s[1..] == body[1..] + "\n" + rest;
      LineBody(body[1..], rest);
    }
  }

  /** A line comment disappears up to its newline. */
  lemma LineCommentDisappears(body: string, rest: string)
    requires '\n' !in body
    ensures Strip("//" + body + "\n" + rest, Code) == "\n" + Strip(rest, Code)
  {
    var s := "//" + body + "\n" + rest;
    assert s[0] == '/' && s[1] == '/' && s[2..] == body + "\n" + rest;
    LineBody(body, rest);
  }
}
