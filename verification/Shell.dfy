/**
 The shell's parser: a recursive descent over a buffer, in which afterwards every
 word is terminated in place.

 A text is the characters of the command line before its NUL.  A parse that
 panics has no result.
 */
module Shell {
  import opened Machine

  const MAXARGS: nat := 10

  // ----- characters and tokens

  predicate White(c: char) {
    c == ' ' || c == '\t' || c == '\r' || c == '\n' || c == 11 as char
  }

  predicate Symbol(c: char) {
    c == '<' || c == '|' || c == '>' || c == '&' || c == ';' || c == '(' || c == ')'
  }

  const NUL: char := '\0'

  /** A character that words are made of. */
  predicate WordChar(c: char) {
    !White(c) && !Symbol(c) && c != NUL
  }

  /** The character that *s reads: at the end, the NUL. */
  function At(t: string, i: nat): char {
    if i < |t| then t[i] else NUL
  }

  /** The first position from i on that is no white space. */
  function Skip(t: string, i: nat): (j: nat)
    requires i <= |t|
    ensures i <= j <= |t| && (j < |t| ==> !White(t[j]))
    decreases |t| - i
  {
    if i < |t| && White(t[i]) then Skip(t, i + 1) else i
  }

  /** The end of the word that goes on at i. */
  function WordEnd(t: string, i: nat): (j: nat)
    requires i <= |t|
    ensures i <= j <= |t|
    decreases |t| - i
  {
    if i < |t| && !White(t[i]) && !Symbol(t[i]) then WordEnd(t, i + 1) else i
  }

  /** A slice of the buffer. */
  datatype Arg = Arg(q: nat, eq: nat)

  /** What gettoken returns: the kind, the slice, and where the scan stands. */
  datatype Token = Token(kind: char, arg: Arg, next: nat)

  function TokenAt(t: string, i: nat): (k: Token)
    requires i <= |t| && NUL !in t
    ensures i <= k.arg.q <= k.arg.eq <= k.next <= |t|
    ensures k.kind == NUL <==> k.arg.q == |t|
    ensures k.kind != NUL ==> k.arg.q < k.arg.eq
  {
    var q := Skip(t, i);
    var c := At(t, q);
    var kind := if c == NUL then NUL
                else if c == '>' then (if At(t, q + 1) == '>' then '+' else '>')
                else if Symbol(c) then c else 'a';
    var eq := if kind == NUL then q else if kind == '+' then q + 2 else if Symbol(c) then q + 1 else WordEnd(t, q + 1);
    Token(kind, Arg(q, eq), Skip(t, eq))
  }

  // ----- command trees

  /** Both forms of output redirection open the file alike. */
  datatype Tree<W> =
    | Exec(argv: seq<W>)
    | Redir(cmd: Tree<W>, file: W, out: bool)
    | Pipe(left: Tree<W>, right: Tree<W>)
    | List(left: Tree<W>, right: Tree<W>)
    | Back(cmd: Tree<W>)

  /** As the parser builds it, with slices of the buffer for words. */
  type Cmd = Tree<Arg>

  datatype Redirect = Redirect(file: Arg, out: bool)

  function Wrap(cmd: Cmd, rs: seq<Redirect>): Cmd {
    if rs == [] then cmd else Redir(Wrap(cmd, rs[..|rs| - 1]), rs[|rs| - 1].file, rs[|rs| - 1].out)
  }

  // ----- the grammar, as functions of the text and a position

  function Redirs(t: string, i: nat): (r: Option<(seq<Redirect>, nat)>)
    requires i <= |t| && NUL !in t
    ensures r.Some? ==> i <= r.value.1 <= |t|
    decreases |t| - i
  {
    var j := Skip(t, i);
    if At(t, j) == '<' || At(t, j) == '>' then
      var tok := TokenAt(t, j);
      var file := TokenAt(t, tok.next);
      if file.kind != 'a' then None
      else
        match Redirs(t, file.next)
        case None => None
        case Some((rest, k)) => Some(([Redirect(file.arg, tok.kind != '<')] + rest, k))
    else Some(([], j))
  }

  /** The words and redirections of a simple command; argc words have been read. */
  function Words(t: string, i: nat, argc: nat): (r: Option<(seq<Arg>, seq<Redirect>, nat)>)
    requires i <= |t| && NUL !in t
    ensures r.Some? ==> i <= r.value.2 <= |t|
    decreases |t| - i
  {
    var j := Skip(t, i);
    if At(t, j) == '|' || At(t, j) == ')' || At(t, j) == '&' || At(t, j) == ';' then Some(([], [], j))
    else
      var tok := TokenAt(t, j);
      if tok.kind == NUL then Some(([], [], tok.next))
      else if tok.kind != 'a' || argc + 1 >= MAXARGS then None
      else
        match Redirs(t, tok.next)
        case None => None
        case Some((rs, k)) =>
          match Words(t, k, argc + 1)
          case None => None
          case Some((argv, more, l)) => Some(([tok.arg] + argv, rs + more, l))
  }

  /** What follows the line of a block: the closing parenthesis, and redirections. */
  function BlockRest(t: string, i: nat, line: Option<(Cmd, nat)>): (r: Option<(Cmd, nat)>)
    requires NUL !in t && (line.Some? ==> i <= line.value.1 <= |t|)
    ensures r.Some? ==> i <= r.value.1 <= |t|
  {
    if line.None? then None
    else
      var l := Skip(t, line.value.1);
      if At(t, l) != ')' then None
      else
        var rs := Redirs(t, TokenAt(t, l).next);
        if rs.None? then None else Some((Wrap(line.value.0, rs.value.0), rs.value.1))
  }

  function ParseExec(t: string, i: nat): (r: Option<(Cmd, nat)>)
    requires i <= |t| && NUL !in t
    ensures r.Some? ==> i <= r.value.1 <= |t|
    decreases |t| - i, 0
  {
    var j := Skip(t, i);
    if At(t, j) == '(' then BlockRest(t, j, ParseLine(t, TokenAt(t, j).next))
    else
      match Redirs(t, j)
      case None => None
      case Some((rs, k)) =>
        match Words(t, k, 0)
        case None => None
        case Some((argv, more, l)) => Some((Wrap(Exec(argv), rs + more), l))
  }

  function ParsePipe(t: string, i: nat): (r: Option<(Cmd, nat)>)
    requires i <= |t| && NUL !in t
    ensures r.Some? ==> i <= r.value.1 <= |t|
    decreases |t| - i, 1
  {
    match ParseExec(t, i)
    case None => None
    case Some((cmd, k)) =>
      var l := Skip(t, k);
      if At(t, l) == '|' then
        match ParsePipe(t, TokenAt(t, l).next)
        case None => None
        case Some((right, m)) => Some((Pipe(cmd, right), m))
      else Some((cmd, l))
  }

  /** Each '&' puts what was read so far in the background. */
  function Amps(t: string, cmd: Cmd, i: nat): (r: (Cmd, nat))
    requires i <= |t| && NUL !in t
    ensures i <= r.1 <= |t|
    decreases |t| - i
  {
    var j := Skip(t, i);
    if At(t, j) == '&' then Amps(t, Back(cmd), TokenAt(t, j).next) else (cmd, j)
  }

  function ParseLine(t: string, i: nat): (r: Option<(Cmd, nat)>)
    requires i <= |t| && NUL !in t
    ensures r.Some? ==> i <= r.value.1 <= |t|
    decreases |t| - i, 2
  {
    match ParsePipe(t, i)
    case None => None
    case Some((first, k)) =>
      var (cmd, l) := Amps(t, first, k);
      var m := Skip(t, l);
      if At(t, m) == ';' then
        match ParseLine(t, TokenAt(t, m).next)
        case None => None
        case Some((rest, n)) => Some((List(cmd, rest), n))
      else Some((cmd, m))
  }

  /** The whole text must be one line. */
  function Parse(t: string): Option<Cmd>
    requires NUL !in t
  {
    match ParseLine(t, 0)
    case None => None
    case Some((cmd, k)) => if Skip(t, k) == |t| then Some(cmd) else None
  }

  // ----- words in place

  /** All slices of a command. */
  function Args(cmd: Cmd): seq<Arg> {
    match cmd
    case Exec(argv) => argv
    case Redir(sub, file, _) => Args(sub) + [file]
    case Pipe(left, right) => Args(left) + Args(right)
    case List(left, right) => Args(left) + Args(right)
    case Back(sub) => Args(sub)
  }

  ghost predicate EndsAt(args: seq<Arg>, i: nat) {
    exists a :: a in args && a.eq == i
  }

  lemma EndsMore(a: seq<Arg>, b: seq<Arg>)
    ensures forall i: nat :: EndsAt(a + b, i) <==> EndsAt(a, i) || EndsAt(b, i)
    ensures forall x :: x in a + b <==> x in a || x in b
  {
    forall i: nat
      ensures EndsAt(a + b, i) <==> EndsAt(a, i) || EndsAt(b, i)
    {
      assert forall x :: x in a + b <==> x in a || x in b;
      if EndsAt(a, i) {
        var x :| x in a && x.eq == i;
        assert x in a + b;
      }
      if EndsAt(b, i) {
        var x :| x in b && x.eq == i;
        assert x in a + b;
      }
    }
  }

  lemma SkipTwice(t: string, i: nat)
    requires i <= |t|
    ensures Skip(t, Skip(t, i)) == Skip(t, i)
  {
  }

  lemma RedirsAfterSkip(t: string, i: nat)
    requires i <= |t| && NUL !in t
    ensures Redirs(t, Skip(t, i)) == Redirs(t, i)
  {
    SkipTwice(t, i);
  }

  lemma WordsAfterSkip(t: string, i: nat, argc: nat)
    requires i <= |t| && NUL !in t
    ensures Words(t, Skip(t, i), argc) == Words(t, i, argc) && Skip(t, Skip(t, i)) == Skip(t, i)
  {
    SkipTwice(t, i);
    TokenAfterSkip(t, i);
  }

  /** The redirections from i on are rs and then those from j on. */
  predicate RedirsFrom(t: string, i: nat, rs: seq<Redirect>, j: nat)
    requires i <= |t| && j <= |t| && NUL !in t
  {
    match Redirs(t, j)
    case None => Redirs(t, i) == None
    case Some((rest, k)) => Redirs(t, i) == Some((rs + rest, k))
  }

  lemma RedirsStart(t: string, i: nat)
    requires i <= |t| && NUL !in t
    ensures RedirsFrom(t, i, [], Skip(t, i))
  {
    RedirsAfterSkip(t, i);
    if Redirs(t, i).Some? {
      assert [] + Redirs(t, i).value.0 == Redirs(t, i).value.0;
    }
  }

  /** One step of parseredirs. */
  lemma RedirsMore(t: string, i: nat, rs: seq<Redirect>, j: nat)
    requires i <= |t| && j <= |t| && NUL !in t && j == Skip(t, j) && RedirsFrom(t, i, rs, j)
    requires At(t, j) == '<' || At(t, j) == '>'
    ensures var tok := TokenAt(t, j);
            var file := TokenAt(t, tok.next);
            if file.kind != 'a' then Redirs(t, i) == None
            else RedirsFrom(t, i, rs + [Redirect(file.arg, tok.kind != '<')], file.next)
                 && RedirsFrom(t, i, rs + [Redirect(file.arg, tok.kind != '<')], Skip(t, file.next))
  {
    var tok := TokenAt(t, j);
    var file := TokenAt(t, tok.next);
    if file.kind == 'a' {
      var r := Redirect(file.arg, tok.kind != '<');
      RedirsAfterSkip(t, file.next);
      if Redirs(t, file.next).Some? {
        var rest := Redirs(t, file.next).value.0;
        assert rs + ([r] + rest) == (rs + [r]) + rest;
      }
    }
  }

  lemma RedirsEnd(t: string, i: nat, rs: seq<Redirect>, j: nat)
    requires i <= |t| && j <= |t| && NUL !in t && j == Skip(t, j) && RedirsFrom(t, i, rs, j)
    requires At(t, j) != '<' && At(t, j) != '>'
    ensures Redirs(t, i) == Some((rs, j))
  {
    assert rs + [] == rs;
  }

  predicate WordsFrom(t: string, i: nat, argv: seq<Arg>, rs: seq<Redirect>, j: nat)
    requires i <= |t| && j <= |t| && NUL !in t
  {
    match Words(t, j, |argv|)
    case None => Words(t, i, 0) == None
    case Some((a, more, k)) => Words(t, i, 0) == Some((argv + a, rs + more, k))
  }

  lemma WordsStart(t: string, i: nat)
    requires i <= |t| && NUL !in t
    ensures WordsFrom(t, i, [], [], Skip(t, i))
  {
    WordsAfterSkip(t, i, 0);
    if Words(t, i, 0).Some? {
      var (a, more, k) := Words(t, i, 0).value;
      assert [] + a == a && [] + more == more;
    }
  }

  /** One step of parseexec's loop. */
  lemma WordsMore(t: string, i: nat, argv: seq<Arg>, rs: seq<Redirect>, j: nat)
    requires i <= |t| && j <= |t| && NUL !in t && j == Skip(t, j) && WordsFrom(t, i, argv, rs, j)
    requires !(At(t, j) == '|' || At(t, j) == ')' || At(t, j) == '&' || At(t, j) == ';')
    ensures var tok := TokenAt(t, j);
            if tok.kind == NUL then Words(t, i, 0) == Some((argv, rs, tok.next))
            else if tok.kind != 'a' || |argv| + 1 >= MAXARGS then Words(t, i, 0) == None
            else match Redirs(t, tok.next)
                 case None => Words(t, i, 0) == None
                 case Some((more, k)) => tok.next > j && WordsFrom(t, i, argv + [tok.arg], rs + more, k)
                                         && WordsFrom(t, i, argv + [tok.arg], rs + more, Skip(t, k))
  {
    hide Words, Skip, Redirs, TokenAt;
    var tok := TokenAt(t, j);
    WordsUnfold(t, j, |argv|);
    assert argv + [] == argv && rs + [] == rs;
    if tok.kind == 'a' && |argv| + 1 < MAXARGS && Redirs(t, tok.next).Some? {
      var (more, k) := Redirs(t, tok.next).value;
      WordsAfterSkip(t, k, |argv| + 1);
      if Words(t, k, |argv| + 1).Some? {
        var (a, others, l) := Words(t, k, |argv| + 1).value;
        assert argv + ([tok.arg] + a) == (argv + [tok.arg]) + a;
        assert rs + (more + others) == (rs + more) + others;
      }
    }
  }

  lemma WordsUnfold(t: string, j: nat, argc: nat)
    requires j <= |t| && NUL !in t && j == Skip(t, j)
    requires !(At(t, j) == '|' || At(t, j) == ')' || At(t, j) == '&' || At(t, j) == ';')
    ensures var tok := TokenAt(t, j);
            if tok.kind == NUL then Words(t, j, argc) == Some(([], [], tok.next))
            else if tok.kind != 'a' || argc + 1 >= MAXARGS then Words(t, j, argc) == None
            else match Redirs(t, tok.next)
                 case None => Words(t, j, argc) == None
                 case Some((more, k)) =>
                   (tok.next > j && tok.next <= k <= |t|
                    && if Words(t, k, argc + 1).None? then Words(t, j, argc) == None
                       else var (a, others, l) := Words(t, k, argc + 1).value;
                            Words(t, j, argc) == Some(([tok.arg] + a, more + others, l)))
  {
    hide Redirs, TokenAt;
  }

  lemma WordsEnd(t: string, i: nat, argv: seq<Arg>, rs: seq<Redirect>, j: nat)
    requires i <= |t| && j <= |t| && NUL !in t && j == Skip(t, j) && WordsFrom(t, i, argv, rs, j)
    requires At(t, j) == '|' || At(t, j) == ')' || At(t, j) == '&' || At(t, j) == ';'
    ensures Words(t, i, 0) == Some((argv, rs, j))
  {
    assert argv + [] == argv && rs + [] == rs;
  }

  lemma TokenAfterSkip(t: string, i: nat)
    requires i <= |t| && NUL !in t
    ensures TokenAt(t, Skip(t, i)) == TokenAt(t, i)
  {
    SkipTwice(t, i);
  }

  /** A single-character token moves the scan. */
  lemma BarToken(t: string, i: nat)
    requires i < |t| && NUL !in t && i == Skip(t, i) && Symbol(t[i])
    ensures TokenAt(t, i).next > i
  {
  }

  class Parser {
    const buf: array<char>
    var s: nat
    const es: nat
    ghost const t: string

    ghost predicate Valid()
      reads this, buf
    {
      && s <= es == |t| && buf.Length == es + 1 && NUL !in t
      && buf[..es] == t && buf[es] == NUL
    }

    constructor (buf: array<char>, ghost t: string)
      requires buf.Length == |t| + 1 && buf[..|t|] == t && buf[|t|] == NUL && NUL !in t
      ensures Valid() && s == 0 && this.buf == buf && this.t == t
    {
      this.buf, s, es, this.t := buf, 0, buf.Length - 1, t;
    }

    lemma Char(p: nat)
      requires Valid() && p <= es
      ensures buf[p] == At(t, p) && (buf[p] == NUL <==> p == es)
    {
      if p < es {
        assert buf[p] == buf[..es][p] && t[p] in t;
      }
    }

    method SkipWhite(from: nat) returns (j: nat)
      requires Valid() && from <= es
      ensures j == Skip(t, from)
    {
      j := from;
      Char(j);
      while j < es && White(buf[j])
        invariant j <= es && Skip(t, j) == Skip(t, from) && buf[j] == At(t, j)
        decreases es - j
      {
        j := j + 1;
        Char(j);
      }
    }

    method SkipWord(from: nat) returns (j: nat)
      requires Valid() && from <= es
      ensures j == WordEnd(t, from)
    {
      j := from;
      Char(j);
      while j < es && !White(buf[j]) && !Symbol(buf[j])
        invariant j <= es && WordEnd(t, j) == WordEnd(t, from) && buf[j] == At(t, j)
        decreases es - j
      {
        j := j + 1;
        Char(j);
      }
    }

    method GetToken() returns (ret: char, arg: Arg)
      requires Valid()
      modifies `s
      ensures Valid() && var k := TokenAt(t, old(s)); ret == k.kind && arg == k.arg && s == k.next
    {
      hide Skip, WordEnd;
      var p := SkipWhite(s);
      var q := p;
      Char(p);
      ret := buf[p];
      if ret == NUL {
      } else if ret == '>' {
        p := p + 1;
        Char(p);
        if buf[p] == '>' {
          ret := '+';
          p := p + 1;
        }
      } else if Symbol(ret) {
        p := p + 1;
      } else {
        ret := 'a';
        WordStart(t, p);
        p := SkipWord(p);
      }
      arg := Arg(q, p);
      s := SkipWhite(p);
    }

    /** peek: is the next character, after white space, one of toks? */
    method Peek(toks: string) returns (found: bool)
      requires Valid()
      modifies `s
      ensures Valid() && s == Skip(t, old(s)) && (found <==> At(t, s) != NUL && At(t, s) in toks)
    {
      s := SkipWhite(s);
      Char(s);
      found := buf[s] != NUL && buf[s] in toks;
    }

    /** parseredirs: the redirections that follow, in order. */
    method ParseRedirs() returns (r: Option<seq<Redirect>>)
      requires Valid()
      modifies `s
      ensures Valid()
      ensures match Redirs(t, old(s))
              case None => r == None
              case Some((rs, k)) => r == Some(rs) && s == k
    {
      hide Skip, TokenAt, Redirs;
      var rs := [];
      SkipTwice(t, s);
      RedirsStart(t, s);
      var more := Peek("<>");
      while more
        invariant Valid() && s == Skip(t, s) && (more <==> At(t, s) == '<' || At(t, s) == '>')
        invariant RedirsFrom(t, old(s), rs, s)
        decreases es - s
      {
        RedirsMore(t, old(s), rs, s);
        BarToken(t, s);
        var tok, op := GetToken();
        var kind, file := GetToken();
        if kind != 'a' {
          return None;
        }
        rs := rs + [Redirect(file, tok != '<')];
        SkipTwice(t, s);
        RedirsAfterSkip(t, s);
        more := Peek("<>");
      }
      RedirsEnd(t, old(s), rs, s);
      r := Some(rs);
    }

    /** parseexec: a block, or words among redirections. */
    method ParseExecCmd() returns (r: Option<Cmd>)
      requires Valid()
      modifies `s
      ensures Valid()
      ensures match ParseExec(t, old(s))
              case None => r == None
              case Some((cmd, k)) => r == Some(cmd) && s == k
      decreases es - s, 1
    {
      hide Skip, TokenAt, Redirs, Words, Wrap;
      SkipTwice(t, s);
      var block := Peek("(");
      if block {
        r := ParseBlock();
        return;
      }
      var rs := ParseRedirs();
      if rs == None {
        return None;
      }
      var words := ParseWords();
      if words == None {
        return None;
      }
      r := Some(Wrap(Exec(words.value.0), rs.value + words.value.1));
    }

    /** parseexec's loop. */
    method ParseWords() returns (r: Option<(seq<Arg>, seq<Redirect>)>)
      requires Valid()
      modifies `s
      ensures Valid()
      ensures match Words(t, old(s), 0)
              case None => r == None
              case Some((argv, rs, k)) => r == Some((argv, rs)) && s == k
    {
      hide Skip, TokenAt, Redirs, Words;
      var argv, rs := [], [];
      var argc := 0;
      WordsAfterSkip(t, s, 0);
      WordsStart(t, s);
      var stop := Peek("|)&;");
      while !stop
        invariant Valid() && s == Skip(t, s) && argc == |argv|
        invariant stop <==> At(t, s) == '|' || At(t, s) == ')' || At(t, s) == '&' || At(t, s) == ';'
        invariant WordsFrom(t, old(s), argv, rs, s)
        decreases es - s
      {
        WordsMore(t, old(s), argv, rs, s);
        var tok, arg := GetToken();
        if tok == NUL {
          break;
        }
        if tok != 'a' {
          return None;
        }
        argv := argv + [arg];
        argc := argc + 1;
        if argc >= MAXARGS {
          return None;
        }
        var more := ParseRedirs();
        if more == None {
          return None;
        }
        rs := rs + more.value;
        WordsAfterSkip(t, s, argc);
        stop := Peek("|)&;");
      }
      if stop {
        WordsEnd(t, old(s), argv, rs, s);
      }
      r := Some((argv, rs));
    }

    /** parseblock, at its opening parenthesis. */
    method ParseBlock() returns (r: Option<Cmd>)
      requires Valid() && s == Skip(t, s) && At(t, s) == '('
      modifies `s
      ensures Valid()
      ensures match ParseExec(t, old(s))
              case None => r == None
              case Some((cmd, k)) => r == Some(cmd) && s == k
      ensures forall i: nat :: i <= |t| && Skip(t, i) == old(s) ==> ParseExec(t, i) == ParseExec(t, old(s))
      decreases es - s, 0
    {
      hide Skip, Redirs, Wrap;
      BarToken(t, s);
      var tok, arg := GetToken();
      r := ParseLineCmd();
      if r == None {
        return;
      }
      var close := Peek(")");
      if !close {
        return None;
      }
      tok, arg := GetToken();
      var rs := ParseRedirs();
      if rs == None {
        return None;
      }
      r := Some(Wrap(r.value, rs.value));
    }

    method ParsePipeCmd() returns (r: Option<Cmd>)
      requires Valid()
      modifies `s
      ensures Valid()
      ensures match ParsePipe(t, old(s))
              case None => r == None
              case Some((cmd, k)) => r == Some(cmd) && s == k
      decreases es - s, 2
    {
      hide Skip, ParseExec;
      r := ParseExecCmd();
      if r == None {
        return;
      }
      SkipTwice(t, s);
      var bar := Peek("|");
      if bar {
        BarToken(t, s);
        var tok, arg := GetToken();
        var right := ParsePipeCmd();
        if right == None {
          return None;
        }
        r := Some(Pipe(r.value, right.value));
      }
    }

    method ParseLineCmd() returns (r: Option<Cmd>)
      requires Valid()
      modifies `s
      ensures Valid()
      ensures match ParseLine(t, old(s))
              case None => r == None
              case Some((cmd, k)) => r == Some(cmd) && s == k
      decreases es - s, 3
    {
      hide Skip, ParsePipe;
      r := ParsePipeCmd();
      if r == None {
        return;
      }
      ghost var first, k := r.value, s;
      var amp := Peek("&");
      SkipTwice(t, k);
      while amp
        invariant Valid() && r.Some? && k <= s && s == Skip(t, s) && (amp <==> At(t, s) == '&')
        invariant Amps(t, first, k) == Amps(t, r.value, s)
        decreases es - s
      {
        BarToken(t, s);
        var tok, arg := GetToken();
        r := Some(Back(r.value));
        SkipTwice(t, s);
        amp := Peek("&");
      }
      SkipTwice(t, s);
      var semi := Peek(";");
      if semi {
        BarToken(t, s);
        var tok, arg := GetToken();
        var rest := ParseLineCmd();
        if rest == None {
          return None;
        }
        r := Some(List(r.value, rest.value));
      }
    }

    /** parsecmd without its last step: nothing may be left over. */
    method ParseCmd() returns (r: Option<Cmd>)
      requires Valid() && s == 0
      modifies `s
      ensures Valid() && r == Parse(t)
    {
      hide Skip, ParseLine;
      r := ParseLineCmd();
      if r == None {
        return;
      }
      var none := Peek("");
      if s != es {
        return None;
      }
    }

    /** nulterminate: a NUL after every word and file name of the command. */
    method NulTerminate(cmd: Cmd)
      requires Valid0() && forall a :: a in Args(cmd) ==> a.eq < buf.Length
      modifies buf
      ensures forall i :: 0 <= i < buf.Length ==> buf[i] == if EndsAt(Args(cmd), i) then NUL else old(buf[i])
      decreases cmd
    {
      match cmd
      case Exec(argv) =>
        var i := 0;
        while i < |argv|
          invariant i <= |argv|
          invariant forall k :: 0 <= k < buf.Length ==> buf[k] == if EndsAt(argv[..i], k) then NUL else old(buf[k])
        {
          buf[argv[i].eq] := NUL;
          EndsMore(argv[..i], [argv[i]]);
          assert argv[..i] + [argv[i]] == argv[..i + 1];
          i := i + 1;
        }
        assert argv[..i] == argv;
      case Redir(sub, file, _) =>
        EndsMore(Args(sub), [file]);
        NulTerminate(sub);
        buf[file.eq] := NUL;
      case Pipe(left, right) =>
        EndsMore(Args(left), Args(right));
        NulTerminate(left);
        NulTerminate(right);
      case List(left, right) =>
        EndsMore(Args(left), Args(right));
        NulTerminate(left);
        NulTerminate(right);
      case Back(sub) =>
        NulTerminate(sub);
    }

    predicate Valid0()
      reads this
    {
      buf.Length == es + 1
    }
  }

  lemma WordStart(t: string, i: nat)
    requires i < |t| && !White(t[i]) && !Symbol(t[i])
    ensures WordEnd(t, i) == WordEnd(t, i + 1)
  {
  }

  // ----- every word can be terminated in place

  /** A maximal run of word characters. */
  ghost predicate GoodArg(t: string, a: Arg) {
    && a.q < a.eq <= |t| && (forall k :: a.q <= k < a.eq ==> WordChar(t[k]))
    && !WordChar(At(t, a.eq))
  }

  ghost predicate AllGood(t: string, args: seq<Arg>) {
    forall a :: a in args ==> GoodArg(t, a)
  }

  lemma {:induction false} WordEndGood(t: string, i: nat)
    requires i <= |t| && NUL !in t
    ensures forall k :: i <= k < WordEnd(t, i) ==> WordChar(t[k])
    ensures !WordChar(At(t, WordEnd(t, i)))
    decreases |t| - i
  {
    if i < |t| && !White(t[i]) && !Symbol(t[i]) {
      assert t[i] in t;
      WordEndGood(t, i + 1);
    }
  }

  lemma TokenGood(t: string, i: nat)
    requires i <= |t| && NUL !in t && TokenAt(t, i).kind == 'a'
    ensures GoodArg(t, TokenAt(t, i).arg)
  {
    var q := Skip(t, i);
    WordEndGood(t, q);
    assert t[q] in t;
  }

  lemma {:induction false} RedirsGood(t: string, i: nat, cmd: Cmd)
    requires i <= |t| && NUL !in t && Redirs(t, i).Some? && AllGood(t, Args(cmd))
    ensures forall r :: r in Redirs(t, i).value.0 ==> GoodArg(t, r.file)
    decreases |t| - i
  {
    var j := Skip(t, i);
    if At(t, j) == '<' || At(t, j) == '>' {
      var file := TokenAt(t, TokenAt(t, j).next);
      TokenGood(t, TokenAt(t, j).next);
      RedirsGood(t, file.next, cmd);
    }
  }

  lemma {:induction false} WrapGood(t: string, cmd: Cmd, rs: seq<Redirect>)
    requires AllGood(t, Args(cmd)) && forall r :: r in rs ==> GoodArg(t, r.file)
    ensures AllGood(t, Args(Wrap(cmd, rs)))
  {
    if rs != [] {
      WrapGood(t, cmd, rs[..|rs| - 1]);
      assert rs[|rs| - 1] in rs;
    }
  }

  lemma {:induction false} WordsGood(t: string, i: nat, argc: nat)
    requires i <= |t| && NUL !in t && Words(t, i, argc).Some?
    ensures AllGood(t, Words(t, i, argc).value.0)
    ensures forall r :: r in Words(t, i, argc).value.1 ==> GoodArg(t, r.file)
    decreases |t| - i
  {
    var j := Skip(t, i);
    if !(At(t, j) == '|' || At(t, j) == ')' || At(t, j) == '&' || At(t, j) == ';') && TokenAt(t, j).kind != NUL {
      var tok := TokenAt(t, j);
      TokenGood(t, j);
      RedirsGood(t, tok.next, Exec([]));
      WordsGood(t, Redirs(t, tok.next).value.1, argc + 1);
    }
  }

  lemma {:induction false} ExecGood(t: string, i: nat)
    requires i <= |t| && NUL !in t && ParseExec(t, i).Some?
    ensures AllGood(t, Args(ParseExec(t, i).value.0))
    decreases |t| - i, 0
  {
    var j := Skip(t, i);
    if At(t, j) == '(' {
      LineGood(t, TokenAt(t, j).next);
      var (cmd, k) := ParseLine(t, TokenAt(t, j).next).value;
      var close := TokenAt(t, Skip(t, k)).next;
      RedirsGood(t, close, Exec([]));
      WrapGood(t, cmd, Redirs(t, close).value.0);
    } else {
      RedirsGood(t, j, Exec([]));
      var (rs, k) := Redirs(t, j).value;
      WordsGood(t, k, 0);
      var (argv, more, l) := Words(t, k, 0).value;
      WrapGood(t, Exec(argv), rs + more);
    }
  }

  lemma {:induction false} PipeGood(t: string, i: nat)
    requires i <= |t| && NUL !in t && ParsePipe(t, i).Some?
    ensures AllGood(t, Args(ParsePipe(t, i).value.0))
    decreases |t| - i, 1
  {
    hide Redirs, Words, ParseExec, ParseLine, Skip, WordEnd, GoodArg;
    ExecGood(t, i);
    var (cmd, k) := ParseExec(t, i).value;
    var l := Skip(t, k);
    if At(t, l) == '|' {
      PipeGood(t, TokenAt(t, l).next);
    }
  }

  lemma {:induction false} AmpsGood(t: string, cmd: Cmd, i: nat)
    requires i <= |t| && NUL !in t && AllGood(t, Args(cmd))
    ensures AllGood(t, Args(Amps(t, cmd, i).0))
    decreases |t| - i
  {
    var j := Skip(t, i);
    if At(t, j) == '&' {
      AmpsGood(t, Back(cmd), TokenAt(t, j).next);
    }
  }

  lemma {:induction false} LineGood(t: string, i: nat)
    requires i <= |t| && NUL !in t && ParseLine(t, i).Some?
    ensures AllGood(t, Args(ParseLine(t, i).value.0))
    decreases |t| - i, 2
  {
    hide Redirs, Words, ParseExec, ParsePipe, Skip, WordEnd, GoodArg;
    PipeGood(t, i);
    var (first, k) := ParsePipe(t, i).value;
    AmpsGood(t, first, k);
    var m := Skip(t, Amps(t, first, k).1);
    if At(t, m) == ';' {
      LineGood(t, TokenAt(t, m).next);
    }
  }

  /** The C string at i: the characters up to the first NUL. */
  function StringAt(b: string, i: nat): string
    requires i <= |b|
    decreases |b| - i
  {
    if i == |b| || b[i] == NUL then "" else [b[i]] + StringAt(b, i + 1)
  }

  lemma {:induction false} StringIs(b: string, i: nat, j: nat)
    requires i <= j < |b| && b[j] == NUL && forall k :: i <= k < j ==> b[k] != NUL
    ensures StringAt(b, i) == b[i..j]
    decreases j - i
  {
    if i < j {
      StringIs(b, i + 1, j);
    }
  }

  /** The buffer after nulterminate. */
  ghost predicate Terminated(t: string, cmd: Cmd, b: string) {
    |b| == |t| + 1 && forall i: nat :: i < |b| ==> b[i] == if EndsAt(Args(cmd), i) then NUL else At(t, i)
  }

  /**
   After nulterminate every word and file name of a parsed command, read as a C string,
   is the slice that the parser found: no NUL falls inside another word.
   */
  lemma WordsTerminated(t: string, cmd: Cmd, b: string, a: Arg)
    requires NUL !in t && Parse(t) == Some(cmd) && Terminated(t, cmd, b) && a in Args(cmd)
    ensures a.q <= a.eq <= |t| < |b| && StringAt(b, a.q) == t[a.q..a.eq]
  {
    hide Redirs, Words, ParseExec, ParsePipe, ParseLine, Skip, WordEnd, StringAt;
    LineGood(t, 0);
    assert GoodArg(t, a);
    forall k | a.q <= k < a.eq
      ensures b[k] == t[k] && b[k] != NUL
    {
      assert WordChar(t[k]);
      forall x | x in Args(cmd)
        ensures x.eq != k
      {
        assert GoodArg(t, x) && !WordChar(At(t, x.eq));
      }
    }
    assert EndsAt(Args(cmd), a.eq);
    StringIs(b, a.q, a.eq);
    assert b[a.q..a.eq] == t[a.q..a.eq];
  }

  lemma ParsedGood(t: string, cmd: Cmd)
    requires NUL !in t && Parse(t) == Some(cmd)
    ensures forall a :: a in Args(cmd) ==> a.eq <= |t|
  {
    LineGood(t, 0);
    assert forall a :: a in Args(cmd) ==> GoodArg(t, a);
  }
}
