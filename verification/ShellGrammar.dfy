/**
 The language of the shell.

 A line is pipelines of simple commands and blocks, put in the background by '&' and in
 sequence by ';'.  parsecmd accepts the texts of such lines and no others, and the command
 it returns is what the line means.
 */
module ShellGrammar {
  import opened Machine
  import opened Shell

  // ----- the grammar of command lines

  predicate Blank(s: string) {
    forall k :: 0 <= k < |s| ==> White(s[k])
  }

  predicate Word(w: string) {
    w != "" && forall k :: 0 <= k < |w| ==> WordChar(w[k])
  }

  /** A word, or a redirection operator and the name of its file, each after white space. */
  datatype Item = Item(pad: string, op: string, gap: string, word: string)

  /** Words among redirections, or a line in parentheses with redirections after it. */
  datatype Unit =
    | Simple(items: seq<Item>)
    | Block(pad: string, line: Line, close: string, items: seq<Item>)

  datatype Pipeline =
    | One(unit: Unit)
    | Bar(unit: Unit, pad: string, right: Pipeline)

  /** A pipeline and its '&'s, each after white space; after ';' the line goes on. */
  datatype Line =
    | Last(pipe: Pipeline, amps: seq<string>)
    | Semi(pipe: Pipeline, amps: seq<string>, pad: string, rest: Line)

  function ItemText(x: Item): string {
    x.pad + (x.op + (x.gap + x.word))
  }

  function Flat(items: seq<Item>): string {
    if items == [] then "" else ItemText(items[0]) + Flat(items[1..])
  }

  function AmpsText(amps: seq<string>): string {
    if amps == [] then "" else amps[0] + ("&" + AmpsText(amps[1..]))
  }

  function UnitText(u: Unit): string {
    match u
    case Simple(items) => Flat(items)
    case Block(pad, line, close, items) => pad + ("(" + (LineText(line) + (close + (")" + Flat(items)))))
  }

  function PipeText(p: Pipeline): string {
    match p
    case One(u) => UnitText(u)
    case Bar(u, pad, right) => UnitText(u) + (pad + ("|" + PipeText(right)))
  }

  function LineText(l: Line): string {
    match l
    case Last(p, amps) => PipeText(p) + AmpsText(amps)
    case Semi(p, amps, pad, rest) => PipeText(p) + (AmpsText(amps) + (pad + (";" + LineText(rest))))
  }

  predicate LegalItem(x: Item) {
    && Blank(x.pad) && Blank(x.gap) && Word(x.word)
    && ((x.op == "" && x.gap == "") || x.op == "<" || x.op == ">" || x.op == ">>")
  }

  /** White space is needed only before a word that follows another. */
  predicate LegalItems(items: seq<Item>) {
    forall k :: 0 <= k < |items| ==> LegalItem(items[k]) && (k > 0 && items[k].op == "" ==> items[k].pad != "")
  }

  predicate Redirections(items: seq<Item>) {
    forall k :: 0 <= k < |items| ==> items[k].op != ""
  }

  predicate Blanks(amps: seq<string>) {
    forall k :: 0 <= k < |amps| ==> Blank(amps[k])
  }

  predicate LegalUnit(u: Unit) {
    match u
    case Simple(items) => LegalItems(items) && |WordsIn(items)| < MAXARGS
    case Block(pad, line, close, items) =>
      Blank(pad) && LegalLine(line) && Blank(close) && LegalItems(items) && Redirections(items)
  }

  predicate LegalPipe(p: Pipeline) {
    match p
    case One(u) => LegalUnit(u)
    case Bar(u, pad, right) => LegalUnit(u) && Blank(pad) && LegalPipe(right)
  }

  predicate LegalLine(l: Line) {
    match l
    case Last(p, amps) => LegalPipe(p) && Blanks(amps)
    case Semi(p, amps, pad, rest) => LegalPipe(p) && Blanks(amps) && Blank(pad) && LegalLine(rest)
  }

  // ----- what a line means

  function WordsIn(items: seq<Item>): seq<string> {
    if items == [] then []
    else if items[0].op == "" then [items[0].word] + WordsIn(items[1..])
    else WordsIn(items[1..])
  }

  /** A command with the redirections among the items around it, the first innermost. */
  function Around(c: Tree<string>, items: seq<Item>): Tree<string>
    decreases |items|
  {
    if items == [] then c
    else Around(if items[0].op == "" then c else Redir(c, items[0].word, items[0].op != "<"), items[1..])
  }

  function Behind(c: Tree<string>, amps: seq<string>): Tree<string>
    decreases |amps|
  {
    if amps == [] then c else Behind(Back(c), amps[1..])
  }

  function UnitMeaning(u: Unit): Tree<string> {
    match u
    case Simple(items) => Around(Exec(WordsIn(items)), items)
    case Block(_, line, _, items) => Around(LineMeaning(line), items)
  }

  function PipeMeaning(p: Pipeline): Tree<string> {
    match p
    case One(u) => UnitMeaning(u)
    case Bar(u, _, right) => Pipe(UnitMeaning(u), PipeMeaning(right))
  }

  function LineMeaning(l: Line): Tree<string> {
    match l
    case Last(p, amps) => Behind(PipeMeaning(p), amps)
    case Semi(p, amps, _, rest) => List(Behind(PipeMeaning(p), amps), LineMeaning(rest))
  }

  /** The words of a parsed command. */
  function Meaning(t: string, c: Cmd): Tree<string> {
    match c
    case Exec(argv) => Exec(Slices(t, argv))
    case Redir(sub, file, out) => Redir(Meaning(t, sub), Slice(t, file), out)
    case Pipe(l, r) => Pipe(Meaning(t, l), Meaning(t, r))
    case List(l, r) => List(Meaning(t, l), Meaning(t, r))
    case Back(sub) => Back(Meaning(t, sub))
  }

  function Slice(t: string, a: Arg): string {
    if a.q <= a.eq <= |t| then t[a.q..a.eq] else ""
  }

  function Slices(t: string, args: seq<Arg>): (ws: seq<string>)
    ensures |ws| == |args|
  {
    seq(|args|, k requires 0 <= k < |args| => Slice(t, args[k]))
  }

  /** The text is that line, with white space after it. */
  predicate Spells(t: string, line: Line, tail: string) {
    LegalLine(line) && Blank(tail) && t == LineText(line) + tail
  }

  // ----- pieces of a text

  /** s stands in t at i. */
  predicate Has(t: string, i: nat, s: string) {
    i + |s| <= |t| && t[i..i + |s|] == s
  }

  lemma HasCat(t: string, i: nat, a: string, b: string)
    requires Has(t, i, a + b)
    ensures Has(t, i, a) && Has(t, i + |a|, b)
  {
    var s := t[i..i + |a + b|];
    assert t[i..i + |a|] == s[..|a|] == a;
    assert t[i + |a|..i + |a| + |b|] == s[|a|..] == b;
  }

  lemma HasChar(t: string, i: nat, c: char)
    requires Has(t, i, [c])
    ensures i < |t| && t[i] == c
  {
    assert t[i] == t[i..i + 1][0];
  }

  /** A symbol c after white space, with rest behind it. */
  lemma HasSymbol(t: string, i: nat, pad: string, c: char, rest: string)
    requires Has(t, i, pad + ([c] + rest)) && Blank(pad) && NUL !in t && Symbol(c) && c != '>'
    ensures i + |pad| < |t| && t[i + |pad|] == c && Skip(t, i) == i + |pad| && Has(t, i + |pad| + 1, rest)
    ensures TokenAt(t, i + |pad|) == Token(c, Arg(i + |pad|, i + |pad| + 1), Skip(t, i + |pad| + 1))
  {
    hide Skip, TokenAt, Has, Blank;
    HasCat(t, i, pad, [c] + rest);
    HasCat(t, i + |pad|, [c], rest);
    HasChar(t, i + |pad|, c);
    SymbolToken(t, i + |pad|);
    PadSkipped(t, i, pad);
  }

  lemma {:induction false} PadSkipped(t: string, i: nat, pad: string)
    requires Has(t, i, pad) && Blank(pad)
    ensures i + |pad| <= |t| && Skip(t, i) == Skip(t, i + |pad|)
    decreases |pad|
  {
    if pad != "" {
      assert pad == [pad[0]] + pad[1..];
      HasCat(t, i, [pad[0]], pad[1..]);
      HasChar(t, i, pad[0]);
      PadSkipped(t, i + 1, pad[1..]);
    }
  }

  lemma SymbolToken(t: string, i: nat)
    requires i < |t| && NUL !in t && Symbol(t[i]) && t[i] != '>'
    ensures Skip(t, i) == i && TokenAt(t, i) == Token(t[i], Arg(i, i + 1), Skip(t, i + 1))
  {
  }

  lemma {:induction false} WordEndIs(t: string, i: nat, j: nat)
    requires i <= j <= |t| && (forall k :: i <= k < j ==> WordChar(t[k])) && (j < |t| ==> !WordChar(t[j])) && NUL !in t
    ensures WordEnd(t, i) == j
    decreases j - i
  {
    if i < j {
      WordEndIs(t, i + 1, j);
    } else if j < |t| {
      assert t[j] in t;
    }
  }

  lemma WordToken(t: string, i: nat, w: string)
    requires NUL !in t && Word(w) && Has(t, i, w) && !WordChar(At(t, i + |w|))
    ensures TokenAt(t, i) == Token('a', Arg(i, i + |w|), Skip(t, i + |w|)) && Slice(t, Arg(i, i + |w|)) == w
    ensures i < |t| && WordChar(t[i]) && Skip(t, i) == i
  {
    forall k | i <= k < i + |w|
      ensures WordChar(t[k])
    {
      assert t[k] == t[i..i + |w|][k - i] == w[k - i];
    }
    WordEndIs(t, i + 1, i + |w|);
  }

  // ----- items

  lemma ItemParts(t: string, i: nat, x: Item)
    requires Has(t, i, ItemText(x))
    ensures |ItemText(x)| == |x.pad| + |x.op| + |x.gap| + |x.word|
    ensures Has(t, i, x.pad) && Has(t, i + |x.pad|, x.op) && Has(t, i + |x.pad| + |x.op|, x.gap)
    ensures Has(t, i + |x.pad| + |x.op| + |x.gap|, x.word) && i + |ItemText(x)| <= |t|
  {
    HasCat(t, i, x.pad, x.op + (x.gap + x.word));
    HasCat(t, i + |x.pad|, x.op, x.gap + x.word);
    HasCat(t, i + |x.pad| + |x.op|, x.gap, x.word);
  }

  lemma WordItem(t: string, i: nat, x: Item)
    requires NUL !in t && LegalItem(x) && x.op == "" && Has(t, i, ItemText(x)) && !WordChar(At(t, i + |ItemText(x)|))
    ensures i + |ItemText(x)| <= |t|
    ensures var (q, e) := (Skip(t, i), i + |ItemText(x)|);
            && q == i + |x.pad| < e && WordChar(t[q])
            && TokenAt(t, q) == Token('a', Arg(q, e), Skip(t, e)) && Slice(t, Arg(q, e)) == x.word
  {
    hide Skip, TokenAt, Has, Slice, WordChar, Blank;
    ItemParts(t, i, x);
    PadSkipped(t, i, x.pad);
    WordToken(t, i + |x.pad|, x.word);
  }

  /** The operator's token, and whether it is an output. */
  lemma OperatorToken(t: string, j: nat, op: string, p: nat)
    requires NUL !in t && (op == "<" || op == ">" || op == ">>") && Has(t, j, op) && p == j + |op|
    requires p < |t| && (White(t[p]) || WordChar(t[p]))
    ensures j < |t| && (t[j] == '<' || t[j] == '>') && Skip(t, j) == j
    ensures var tok := TokenAt(t, j); (tok.kind != '<' <==> op != "<") && tok.next == Skip(t, p)
  {
    assert t[j] == t[j..p][0] == op[0];
    if op == ">>" {
      assert t[j + 1] == t[j..p][1] == op[1];
    }
  }

  lemma FileItem(t: string, i: nat, x: Item)
    requires NUL !in t && LegalItem(x) && x.op != "" && Has(t, i, ItemText(x)) && !WordChar(At(t, i + |ItemText(x)|))
    ensures i + |ItemText(x)| <= |t|
    ensures var (j, e) := (Skip(t, i), i + |ItemText(x)|);
            var tok := TokenAt(t, j);
            var q := e - |x.word|;
            && j == i + |x.pad| < q < e && (t[j] == '<' || t[j] == '>') && (tok.kind != '<' <==> x.op != "<")
            && TokenAt(t, tok.next) == Token('a', Arg(q, e), Skip(t, e)) && Slice(t, Arg(q, e)) == x.word
  {
    hide Skip, TokenAt, Slice, Has, WordChar, Blank, Word, ItemText;
    ItemParts(t, i, x);
    var j := i + |x.pad|;
    var p := j + |x.op|;
    var q := p + |x.gap|;
    WordToken(t, q, x.word);
    GapStarts(t, p, x.gap);
    OperatorToken(t, j, x.op, p);
    PadSkipped(t, i, x.pad);
    PadSkipped(t, p, x.gap);
  }

  lemma GapStarts(t: string, p: nat, gap: string)
    requires Has(t, p, gap) && Blank(gap) && p + |gap| < |t| && WordChar(t[p + |gap|])
    ensures p < |t| && (White(t[p]) || WordChar(t[p]))
  {
    if gap != "" {
      assert t[p] == t[p..p + |gap|][0] == gap[0];
    }
  }

  /** The files of redirections, as parsed and among items. */
  function Files(t: string, rs: seq<Redirect>): seq<(string, bool)> {
    if rs == [] then [] else [(Slice(t, rs[0].file), rs[0].out)] + Files(t, rs[1..])
  }

  function FilesIn(items: seq<Item>): seq<(string, bool)> {
    if items == [] then []
    else if items[0].op == "" then FilesIn(items[1..])
    else [(items[0].word, items[0].op != "<")] + FilesIn(items[1..])
  }

  lemma {:induction false} FilesCat(t: string, a: seq<Redirect>, b: seq<Redirect>)
    ensures Files(t, a + b) == Files(t, a) + Files(t, b)
  {
    if a == [] {
      assert a + b == b;
    } else {
      FilesCat(t, a[1..], b);
      assert (a + b)[1..] == a[1..] + b;
    }
  }

  lemma Associative<T>(a: seq<T>, b: seq<T>, c: seq<T>)
    ensures a + (b + c) == (a + b) + c
  {
  }

  lemma {:induction false} FlatCat(a: seq<Item>, b: seq<Item>)
    ensures Flat(a + b) == Flat(a) + Flat(b)
  {
    hide ItemText;
    if a == [] {
      assert a + b == b;
    } else {
      FlatCat(a[1..], b);
      assert (a + b)[1..] == a[1..] + b && (a + b)[0] == a[0];
      Associative(ItemText(a[0]), Flat(a[1..]), Flat(b));
    }
  }

  lemma {:induction false} FilesInCat(a: seq<Item>, b: seq<Item>)
    ensures FilesIn(a + b) == FilesIn(a) + FilesIn(b)
  {
    if a == [] {
      assert a + b == b;
    } else {
      FilesInCat(a[1..], b);
      var ab := a + b;
      assert ab[1..] == a[1..] + b && ab[0] == a[0] && ab != [];
      if a[0].op != "" {
        Associative([(a[0].word, a[0].op != "<")], FilesIn(a[1..]), FilesIn(b));
      }
    }
  }

  lemma {:induction false} WordsInCat(a: seq<Item>, b: seq<Item>)
    requires Redirections(a)
    ensures WordsIn(a + b) == WordsIn(b)
  {
    if a == [] {
      assert a + b == b;
    } else {
      WordsInCat(a[1..], b);
      assert (a + b)[1..] == a[1..] + b;
    }
  }

  lemma {:induction false} WrapFront(cmd: Cmd, r: Redirect, rs: seq<Redirect>)
    ensures Wrap(cmd, [r] + rs) == Wrap(Redir(cmd, r.file, r.out), rs)
    decreases |rs|
  {
    if rs == [] {
      assert ([r] + rs)[..0] == [];
      assert Wrap(cmd, []) == cmd;
    } else {
      var n := |rs| - 1;
      WrapFront(cmd, r, rs[..n]);
      assert ([r] + rs)[..n + 1] == [r] + rs[..n];
    }
  }

  lemma {:induction false} WrapMeaning(t: string, cmd: Cmd, rs: seq<Redirect>, items: seq<Item>)
    requires Files(t, rs) == FilesIn(items)
    ensures Meaning(t, Wrap(cmd, rs)) == Around(Meaning(t, cmd), items)
    decreases |items|
  {
    if items == [] {
      assert rs == [];
    } else if items[0].op == "" {
      WrapMeaning(t, cmd, rs, items[1..]);
    } else {
      var r, rest := rs[0], rs[1..];
      assert rs == [r] + rest;
      assert Files(t, rest) == Files(t, rs)[1..] == FilesIn(items)[1..] == FilesIn(items[1..]);
      WrapFront(cmd, r, rest);
      WrapMeaning(t, Redir(cmd, r.file, r.out), rest, items[1..]);
    }
  }

  /** How many redirections come first. */
  function Lead(items: seq<Item>): (n: nat)
    ensures n <= |items| && (forall k :: 0 <= k < n ==> items[k].op != "") && (n < |items| ==> items[n].op == "")
  {
    if items == [] || items[0].op == "" then 0 else Lead(items[1..]) + 1
  }

  // ----- reading a line: redirections and words

  /** Apart from white space the text ends at j, or a symbol follows that ends a simple command. */
  predicate Closes(t: string, j: nat) {
    j <= |t| && var k := Skip(t, j); k == |t| || t[k] == '|' || t[k] == ')' || t[k] == '&' || t[k] == ';'
  }

  lemma ClosesStops(t: string, j: nat)
    requires Closes(t, j) && NUL !in t
    ensures !WordChar(At(t, j))
    ensures At(t, Skip(t, j)) != '<' && At(t, Skip(t, j)) != '>' && At(t, Skip(t, j)) != '('
  {
  }

  /** What follows an item is no part of its word. */
  lemma NextStops(t: string, i: nat, items: seq<Item>)
    requires NUL !in t && Has(t, i, Flat(items)) && items != [] && LegalItem(items[0])
    requires items[0].op == "" ==> items[0].pad != ""
    ensures i < |t| && !WordChar(t[i])
  {
    var x := items[0];
    HasCat(t, i, ItemText(x), Flat(items[1..]));
    ItemParts(t, i, x);
    if x.pad != "" {
      assert t[i] == t[i..i + |x.pad|][0] == x.pad[0];
    } else {
      assert t[i] == t[i..i + |x.op|][0] == x.op[0];
    }
  }

  lemma {:induction false} RedirsRead(t: string, i: nat, items: seq<Item>, e: nat)
    requires i <= |t| && NUL !in t && LegalItems(items) && Redirections(items) && Has(t, i, Flat(items)) && e == i + |Flat(items)|
    requires e <= |t| && (items != [] ==> !WordChar(At(t, e))) && At(t, Skip(t, e)) != '<' && At(t, Skip(t, e)) != '>'
    ensures var r := Redirs(t, i); r.Some? && r.value.1 == Skip(t, e) && Files(t, r.value.0) == FilesIn(items)
    decreases |items|
  {
    hide Skip, TokenAt, Has, Slice, WordChar, LegalItem;
    SkipTwice(t, i);
    if items != [] {
      var x, rest := items[0], items[1..];
      HasCat(t, i, ItemText(x), Flat(rest));
      var m := i + |ItemText(x)|;
      if rest != [] {
        NextStops(t, m, rest);
      }
      FileItem(t, i, x);
      RedirsRead(t, m, rest, e);
      RedirsAfterSkip(t, m);
      var rs := Redirs(t, m).value.0;
      var r := Redirs(t, i).value.0;
      assert r[1..] == rs;
    }
  }

  lemma LeadParts(t: string, i: nat, items: seq<Item>)
    requires LegalItems(items) && Has(t, i, Flat(items))
    ensures var (heads, tail) := (items[..Lead(items)], items[Lead(items)..]);
            var p := i + |Flat(heads)|;
            && Has(t, i, Flat(heads)) && Has(t, p, Flat(tail)) && i + |Flat(items)| == p + |Flat(tail)|
            && WordsIn(items) == WordsIn(tail) && FilesIn(items) == FilesIn(heads) + FilesIn(tail)
            && LegalItems(heads) && Redirections(heads) && LegalItems(tail)
            && (tail != [] ==> LegalItem(tail[0]) && tail[0].op == "" && (heads != [] ==> tail[0].pad != ""))
  {
    hide Has, LegalItem, Flat, WordsIn, FilesIn;
    var heads, tail := items[..Lead(items)], items[Lead(items)..];
    assert items == heads + tail;
    FlatCat(heads, tail);
    FilesInCat(heads, tail);
    WordsInCat(heads, tail);
    HasCat(t, i, Flat(heads), Flat(tail));
  }

  /** The redirections before the first word. */
  lemma LeadRead(t: string, i: nat, items: seq<Item>, e: nat)
    requires i <= |t| && NUL !in t && LegalItems(items) && Has(t, i, Flat(items)) && e == i + |Flat(items)| && Closes(t, e)
    ensures var (heads, tail) := (items[..Lead(items)], items[Lead(items)..]);
            var (p, r) := (i + |Flat(heads)|, Redirs(t, i));
            && p <= |t| && Has(t, p, Flat(tail)) && e == p + |Flat(tail)| && LegalItems(tail)
            && WordsIn(items) == WordsIn(tail) && FilesIn(items) == FilesIn(heads) + FilesIn(tail)
            && r.Some? && r.value.1 == Skip(t, p) && Files(t, r.value.0) == FilesIn(heads)
  {
    hide Skip, TokenAt, Has, LegalItem, LegalItems, Redirections, Redirs, Closes, WordChar, ItemText, Flat, WordsIn, FilesIn, Files;
    var heads, tail := items[..Lead(items)], items[Lead(items)..];
    LeadParts(t, i, items);
    var p := i + |Flat(heads)|;
    HasFits(t, i, Flat(heads));
    ClosesStops(t, e);
    if tail == [] {
      FlatNone(tail);
    } else {
      if heads != [] {
        NextStops(t, p, tail);
      }
      WordFollows(t, p, tail);
    }
    RedirsRead(t, i, heads, p);
  }

  lemma FlatNone(items: seq<Item>)
    requires items == []
    ensures Flat(items) == ""
  {
  }

  lemma ItemsUnfold(items: seq<Item>)
    ensures items == [] ==> Flat(items) == "" && WordsIn(items) == [] && FilesIn(items) == []
    ensures items != [] ==> Flat(items) == ItemText(items[0]) + Flat(items[1..])
    ensures items != [] && items[0].op == "" ==>
              WordsIn(items) == [items[0].word] + WordsIn(items[1..]) && FilesIn(items) == FilesIn(items[1..])
  {
  }

  lemma NoFiles(t: string)
    ensures Files(t, []) == []
  {
  }

  lemma {:induction false} WordsRead(t: string, i: nat, items: seq<Item>, argc: nat, e: nat)
    requires i <= |t| && NUL !in t && LegalItems(items) && (items != [] ==> items[0].op == "") && Has(t, i, Flat(items))
    requires e == i + |Flat(items)| && Closes(t, e) && argc + |WordsIn(items)| < MAXARGS
    ensures var r := Words(t, i, argc);
            r.Some? && r.value.2 == Skip(t, e) && Slices(t, r.value.0) == WordsIn(items) && Files(t, r.value.1) == FilesIn(items)
    decreases |items|
  {
    hide Skip, TokenAt, Has, Slice, LegalItem, Words, Redirs, Closes, WordChar, ItemText, Flat, WordsIn, FilesIn, Files;
    ItemsUnfold(items);
    if items == [] {
      WordsNone(t, i, argc);
      NoFiles(t);
    } else {
      var x, rest := items[0], items[1..];
      HasCat(t, i, ItemText(x), Flat(rest));
      var m := i + |ItemText(x)|;
      ClosesStops(t, e);
      if rest == [] {
        FlatNone(rest);
      } else {
        NextStops(t, m, rest);
      }
      WordItem(t, i, x);
      LeadRead(t, m, rest, e);
      var tail := rest[Lead(rest)..];
      var p := m + |Flat(rest[..Lead(rest)])|;
      WordsRead(t, p, tail, argc + 1, e);
      WordsFirst(t, i, argc, m, p);
      FilesCat(t, Redirs(t, m).value.0, Words(t, p, argc + 1).value.1);
    }
  }

  lemma HasFits(t: string, i: nat, s: string)
    requires Has(t, i, s)
    ensures i + |s| <= |t|
  {
  }

  lemma WordFollows(t: string, i: nat, items: seq<Item>)
    requires NUL !in t && items != [] && LegalItem(items[0]) && items[0].op == "" && Has(t, i, Flat(items))
    ensures i <= |t| && var q := Skip(t, i); q < |t| && WordChar(t[q]) && t[q] != '<' && t[q] != '>' && t[q] != '('
  {
    hide Skip;
    var x := items[0];
    HasCat(t, i, ItemText(x), Flat(items[1..]));
    ItemParts(t, i, x);
    PadSkipped(t, i, x.pad);
    var q := i + |x.pad|;
    assert t[q] == t[q..q + |x.word|][0] == x.word[0];
    NoSkip(t, q);
  }

  lemma NoSkip(t: string, i: nat)
    requires i < |t| && !White(t[i])
    ensures Skip(t, i) == i
  {
  }

  lemma WordsNone(t: string, i: nat, argc: nat)
    requires NUL !in t && Closes(t, i)
    ensures Words(t, i, argc) == Some(([], [], Skip(t, i)))
  {
    SkipTwice(t, i);
  }

  /** A word at i that ends at m, and redirections up to p. */
  lemma WordsFirst(t: string, i: nat, argc: nat, m: nat, p: nat)
    requires i <= |t| && Skip(t, i) < m <= p <= |t| && NUL !in t && argc + 1 < MAXARGS && WordChar(t[Skip(t, i)])
    requires TokenAt(t, Skip(t, i)) == Token('a', Arg(Skip(t, i), m), Skip(t, m))
    requires Redirs(t, m).Some? && Redirs(t, m).value.1 == Skip(t, p) && Words(t, p, argc + 1).Some?
    ensures var (a, more, l) := Words(t, p, argc + 1).value;
            var (first, rs) := (Arg(Skip(t, i), m), Redirs(t, m).value.0);
            && Words(t, i, argc) == Some(([first] + a, rs + more, l))
            && Slices(t, [first] + a) == [Slice(t, first)] + Slices(t, a)
  {
    hide TokenAt, Skip, Words, Redirs, WordEnd, Slice;
    WordsAfterSkip(t, i, argc);
    WordsUnfold(t, Skip(t, i), argc);
    RedirsAfterSkip(t, m);
    WordsAfterSkip(t, p, argc + 1);
  }

  // ----- reading a line: simple commands, blocks, pipelines, lists

  /** A parse of c that ends at j. */
  predicate Reads(t: string, r: Option<(Cmd, nat)>, c: Tree<string>, j: nat) {
    r.Some? && r.value.1 == j && Meaning(t, r.value.0) == c
  }

  lemma ExecUnfold(t: string, i: nat)
    requires i <= |t| && NUL !in t && At(t, Skip(t, i)) != '('
    ensures ParseExec(t, i) == match Redirs(t, i)
                               case None => None
                               case Some((rs, k)) =>
                                 match Words(t, k, 0)
                                 case None => None
                                 case Some((argv, more, l)) => Some((Wrap(Exec(argv), rs + more), l))
  {
    RedirsAfterSkip(t, i);
    hide Skip, Redirs, Words, Wrap;
  }

  lemma SimpleReads(t: string, i: nat, items: seq<Item>, e: nat)
    requires i <= |t| && NUL !in t && LegalUnit(Simple(items)) && Has(t, i, Flat(items)) && e == i + |Flat(items)| && Closes(t, e)
    ensures Reads(t, ParseExec(t, i), UnitMeaning(Simple(items)), Skip(t, e))
  {
    hide Skip, TokenAt, Has, LegalItems, Words, Redirs, Closes, ParseExec, Wrap, Meaning, Around, Flat, WordsIn, FilesIn, Files;
    LeadRead(t, i, items, e);
    var p := i + |Flat(items[..Lead(items)])|;
    WordsRead(t, p, items[Lead(items)..], 0, e);
    WordsAfterSkip(t, p, 0);
    SimpleStarts(t, i, items, e);
    ExecUnfold(t, i);
    var rs := Redirs(t, i).value.0;
    var (argv, more, l) := Words(t, p, 0).value;
    FilesCat(t, rs, more);
    WrapMeaning(t, Exec(argv), rs + more, items);
    ExecMeaning(t, argv);
  }

  lemma ExecMeaning(t: string, argv: seq<Arg>)
    ensures Meaning(t, Exec(argv)) == Exec(Slices(t, argv))
  {
  }

  lemma SimpleStarts(t: string, i: nat, items: seq<Item>, e: nat)
    requires i <= |t| && NUL !in t && LegalItems(items) && Has(t, i, Flat(items)) && e == i + |Flat(items)| && Closes(t, e)
    ensures At(t, Skip(t, i)) != '('
  {
    hide Skip, Has, Closes, TokenAt;
    if items == [] {
      ClosesStops(t, e);
    } else if items[0].op == "" {
      WordFollows(t, i, items);
    } else {
      var x, rest := items[0], items[1..];
      HasCat(t, i, ItemText(x), Flat(rest));
      ClosesStops(t, e);
      if rest != [] {
        NextStops(t, i + |ItemText(x)|, rest);
      }
      FileItem(t, i, x);
    }
  }

  lemma {:induction false} UnitReads(t: string, i: nat, u: Unit, e: nat)
    requires i <= |t| && NUL !in t && LegalUnit(u) && Has(t, i, UnitText(u)) && e == i + |UnitText(u)| && Closes(t, e)
    ensures Reads(t, ParseExec(t, i), UnitMeaning(u), Skip(t, e))
    decreases u
  {
    hide Has, Skip, TokenAt, Redirs, Words, Closes, ParseExec, ParseLine, Wrap, Around, Meaning;
    match u
    case Simple(items) =>
      SimpleReads(t, i, items, e);
    case Block(pad, line, close, items) =>
      var after := close + (")" + Flat(items));
      assert "(" == ['('] && ")" == [')'];
      HasSymbol(t, i, pad, '(', LineText(line) + after);
      var a := i + |pad| + 1;
      HasCat(t, a, LineText(line), after);
      var b := a + |LineText(line)|;
      HasSymbol(t, b, close, ')', Flat(items));
      var c := b + |close|;
      LineReads(t, a, line, b);
      ClosesStops(t, e);
      RedirsRead(t, c + 1, items, e);
      BlockUnfold(t, i, ParseLine(t, a).value.0, c);
      WrapMeaning(t, ParseLine(t, a).value.0, Redirs(t, c + 1).value.0, items);
  }

  /** parseexec on a block whose closing parenthesis is at k. */
  lemma BlockUnfold(t: string, i: nat, cmd: Cmd, k: nat)
    requires i <= |t| && Skip(t, i) < k < |t| && NUL !in t && t[Skip(t, i)] == '(' && t[k] == ')'
    requires ParseLine(t, Skip(t, i) + 1) == Some((cmd, k))
    ensures var r := Redirs(t, k + 1);
            ParseExec(t, i) == if r.None? then None else Some((Wrap(cmd, r.value.0), r.value.1))
  {
    hide ParseLine, Skip, TokenAt, Redirs, Wrap, ParsePipe, Words, WordEnd, Amps;
    SymbolToken(t, Skip(t, i));
    LineFromSkip(t, Skip(t, i) + 1);
    SymbolToken(t, k);
    RedirsAfterSkip(t, k + 1);
  }

  /** Leading white space does not matter. */
  lemma LineFromSkip(t: string, i: nat)
    requires i <= |t| && NUL !in t
    ensures ParseLine(t, Skip(t, i)) == ParseLine(t, i)
  {
    SkipTwice(t, i);
    assert ParseExec(t, Skip(t, i)) == ParseExec(t, i);
    assert ParsePipe(t, Skip(t, i)) == ParsePipe(t, i);
  }

  lemma PipeFromSkip(t: string, i: nat)
    requires i <= |t| && NUL !in t
    ensures ParsePipe(t, Skip(t, i)) == ParsePipe(t, i)
  {
    SkipTwice(t, i);
    assert ParseExec(t, Skip(t, i)) == ParseExec(t, i);
  }

  /** parsepipe after its first command, whose text ends at k. */
  lemma PipeUnfold(t: string, i: nat, cmd: Cmd, k: nat)
    requires i <= |t| && k <= |t| && NUL !in t && ParseExec(t, i) == Some((cmd, Skip(t, k)))
    ensures At(t, Skip(t, k)) != '|' ==> ParsePipe(t, i) == Some((cmd, Skip(t, k)))
    ensures At(t, Skip(t, k)) == '|' ==>
              ParsePipe(t, i) == match ParsePipe(t, Skip(t, k) + 1)
                                 case None => None
                                 case Some((right, m)) => Some((Pipe(cmd, right), m))
  {
    hide ParseExec, Skip, TokenAt, WordEnd, ParseLine, Words, Redirs, BlockRest, Wrap, Amps;
    SkipTwice(t, k);
    if At(t, Skip(t, k)) == '|' {
      SymbolToken(t, Skip(t, k));
      PipeFromSkip(t, Skip(t, k) + 1);
    }
  }

  lemma {:induction false} PipeReads(t: string, i: nat, p: Pipeline, e: nat)
    requires i <= |t| && NUL !in t && LegalPipe(p) && Has(t, i, PipeText(p)) && e == i + |PipeText(p)|
    requires Closes(t, e) && At(t, Skip(t, e)) != '|'
    ensures Reads(t, ParsePipe(t, i), PipeMeaning(p), Skip(t, e))
    decreases p, 0
  {
    hide Has, Skip, TokenAt, Closes, ParseExec, ParsePipe, UnitText, UnitMeaning, LegalUnit;
    match p
    case One(u) =>
      UnitReads(t, i, u, e);
      PipeUnfold(t, i, ParseExec(t, i).value.0, e);
    case Bar(u, pad, right) =>
      assert "|" == ['|'];
      HasCat(t, i, UnitText(u), pad + ("|" + PipeText(right)));
      var m := i + |UnitText(u)|;
      HasSymbol(t, m, pad, '|', PipeText(right));
      BeforeSymbol(t, m);
      UnitReads(t, i, u, m);
      PipeReads(t, m + |pad| + 1, right, e);
      PipeUnfold(t, i, ParseExec(t, i).value.0, m);
  }

  lemma BeforeSymbol(t: string, j: nat)
    requires j <= |t| && At(t, Skip(t, j)) in {'|', '&', ';', ')'}
    ensures Closes(t, j)
  {
  }

  lemma {:induction false} AmpsRead(t: string, cmd: Cmd, i: nat, amps: seq<string>, e: nat)
    requires i <= |t| && NUL !in t && Blanks(amps) && Has(t, i, AmpsText(amps)) && e == i + |AmpsText(amps)|
    requires e <= |t| && At(t, Skip(t, e)) != '&'
    ensures var r := Amps(t, cmd, i); r.1 == Skip(t, e) && Meaning(t, r.0) == Behind(Meaning(t, cmd), amps)
    ensures amps != [] ==> At(t, Skip(t, i)) == '&'
    decreases |amps|
  {
    hide Has, Skip, TokenAt, Blank;
    if amps != [] {
      assert "&" == ['&'];
      HasSymbol(t, i, amps[0], '&', AmpsText(amps[1..]));
      var m := i + |amps[0]| + 1;
      AmpsRead(t, Back(cmd), m, amps[1..], e);
      AmpsFromSkip(t, Back(cmd), m);
    }
  }

  lemma AmpsFromSkip(t: string, cmd: Cmd, i: nat)
    requires i <= |t| && NUL !in t
    ensures Amps(t, cmd, Skip(t, i)) == Amps(t, cmd, i)
  {
    SkipTwice(t, i);
  }

  /** parseline after its first pipeline, whose text ends at k, and the '&'s after it. */
  lemma LineUnfold(t: string, i: nat, first: Cmd, k: nat, j: nat)
    requires i <= |t| && k <= |t| && j <= |t| && NUL !in t && ParsePipe(t, i) == Some((first, Skip(t, k))) && Amps(t, first, k).1 == Skip(t, j)
    ensures At(t, Skip(t, j)) != ';' ==> ParseLine(t, i) == Some((Amps(t, first, k).0, Skip(t, j)))
    ensures At(t, Skip(t, j)) == ';' ==>
              ParseLine(t, i) == match ParseLine(t, Skip(t, j) + 1)
                                 case None => None
                                 case Some((rest, n)) => Some((List(Amps(t, first, k).0, rest), n))
  {
    hide ParsePipe, Skip, TokenAt, Amps, WordEnd, ParseExec, Words, Redirs, BlockRest, Wrap;
    SkipTwice(t, j);
    AmpsFromSkip(t, first, k);
    if At(t, Skip(t, j)) == ';' {
      SymbolToken(t, Skip(t, j));
      LineFromSkip(t, Skip(t, j) + 1);
    }
  }

  /** The end of the text or of a block, apart from white space. */
  predicate Ends(t: string, j: nat) {
    j <= |t| && var k := Skip(t, j); k == |t| || t[k] == ')'
  }

  lemma EndsChar(t: string, j: nat)
    requires Ends(t, j)
    ensures Closes(t, j) && (At(t, Skip(t, j)) == NUL || At(t, Skip(t, j)) == ')')
  {
  }

  /** Wherever a line stands before the end of the text or a closing parenthesis, parseline reads what it means. */
  lemma {:induction false} LineReads(t: string, i: nat, line: Line, e: nat)
    requires i <= |t| && NUL !in t && LegalLine(line) && Has(t, i, LineText(line)) && e == i + |LineText(line)| && Ends(t, e)
    ensures Reads(t, ParseLine(t, i), LineMeaning(line), Skip(t, e))
    decreases line
  {
    hide Has, Skip, TokenAt, Closes, Ends, ParseLine, ParsePipe, PipeText, PipeMeaning, AmpsText, LegalPipe, Behind, Amps, Blank;
    EndsChar(t, e);
    match line
    case Last(p, amps) =>
      HasCat(t, i, PipeText(p), AmpsText(amps));
      var m := i + |PipeText(p)|;
      PipeAndAmps(t, i, p, amps, m, e);
      LineUnfold(t, i, ParsePipe(t, i).value.0, m, e);
    case Semi(p, amps, pad, rest) =>
      assert ";" == [';'];
      var after := pad + (";" + LineText(rest));
      HasCat(t, i, PipeText(p), AmpsText(amps) + after);
      var m := i + |PipeText(p)|;
      HasCat(t, m, AmpsText(amps), after);
      var k := m + |AmpsText(amps)|;
      HasSymbol(t, k, pad, ';', LineText(rest));
      BeforeSymbol(t, k);
      PipeAndAmps(t, i, p, amps, m, k);
      LineReads(t, k + |pad| + 1, rest, e);
      LineUnfold(t, i, ParsePipe(t, i).value.0, m, k);
  }

  /** A pipeline up to m, and the '&'s after it up to e. */
  lemma {:induction false} PipeAndAmps(t: string, i: nat, p: Pipeline, amps: seq<string>, m: nat, e: nat)
    requires i <= m <= e <= |t| && NUL !in t && LegalPipe(p) && Blanks(amps) && Closes(t, e)
    requires Has(t, i, PipeText(p)) && m == i + |PipeText(p)| && Has(t, m, AmpsText(amps)) && e == m + |AmpsText(amps)|
    requires At(t, Skip(t, e)) != '|' && At(t, Skip(t, e)) != '&'
    ensures Reads(t, ParsePipe(t, i), PipeMeaning(p), Skip(t, m))
    ensures var first := ParsePipe(t, i).value.0;
            Amps(t, first, m).1 == Skip(t, e) && Meaning(t, Amps(t, first, m).0) == Behind(PipeMeaning(p), amps)
    decreases p, 1
  {
    hide Has, Skip, TokenAt, Closes, ParseLine, ParsePipe, PipeText, PipeMeaning, LegalPipe, Behind, Amps, Blank;
    AmpsRead(t, Exec([]), m, amps, e);
    if amps != [] {
      BeforeSymbol(t, m);
    }
    PipeReads(t, i, p, m);
    AmpsRead(t, ParsePipe(t, i).value.0, m, amps, e);
  }

  lemma AllRead(t: string, line: Line, tail: string)
    requires Spells(t, line, tail)
    ensures NUL !in t && Parse(t).Some? && Meaning(t, Parse(t).value) == LineMeaning(line)
  {
    hide LegalLine, LineText, ParseLine, Skip, LineMeaning, Meaning, White, Symbol;
    LineHasNoNul(line);
    NoNulBlank(tail);
    var e := |LineText(line)|;
    assert Has(t, 0, LineText(line)) && Has(t, e, tail);
    PadSkipped(t, e, tail);
    SkipEnd(t);
    LineReads(t, 0, line, e);
  }

  lemma SkipEnd(t: string)
    ensures Skip(t, |t|) == |t|
  {
  }

  // ----- no NUL in a legal line

  lemma NoNulBlank(s: string)
    requires Blank(s)
    ensures NUL !in s
  {
  }

  lemma {:induction false} NoNulItems(items: seq<Item>)
    requires LegalItems(items)
    ensures NUL !in Flat(items)
  {
    hide Blank;
    if items != [] {
      var x := items[0];
      NoNulBlank(x.pad);
      NoNulBlank(x.gap);
      assert NUL !in x.word;
      NoNulItems(items[1..]);
    }
  }

  lemma {:induction false} NoNulAmps(amps: seq<string>)
    requires Blanks(amps)
    ensures NUL !in AmpsText(amps)
  {
    hide Blank;
    if amps != [] {
      NoNulBlank(amps[0]);
      NoNulAmps(amps[1..]);
    }
  }

  lemma {:induction false} UnitHasNoNul(u: Unit)
    requires LegalUnit(u)
    ensures NUL !in UnitText(u)
    decreases u
  {
    hide Blank, LegalItems, Flat, WordsIn, LegalLine, LineText;
    match u
    case Simple(items) =>
      NoNulItems(items);
    case Block(pad, line, close, items) =>
      NoNulBlank(pad);
      NoNulBlank(close);
      NoNulItems(items);
      LineHasNoNul(line);
  }

  lemma {:induction false} PipeHasNoNul(p: Pipeline)
    requires LegalPipe(p)
    ensures NUL !in PipeText(p)
    decreases p
  {
    hide Blank, LegalUnit, UnitText;
    match p
    case One(u) => UnitHasNoNul(u);
    case Bar(u, pad, right) =>
      UnitHasNoNul(u);
      NoNulBlank(pad);
      PipeHasNoNul(right);
  }

  lemma {:induction false} LineHasNoNul(line: Line)
    requires LegalLine(line)
    ensures NUL !in LineText(line)
    decreases line
  {
    hide Blank, LegalPipe, PipeText, Blanks, AmpsText;
    PipeHasNoNul(line.pipe);
    NoNulAmps(line.amps);
    if line.Semi? {
      NoNulBlank(line.pad);
      LineHasNoNul(line.rest);
    }
  }

  // ----- every parsed text is a line

  lemma {:induction false} SkipBlank(t: string, i: nat)
    requires i <= |t|
    ensures Blank(t[i..Skip(t, i)])
    decreases |t| - i
  {
    if i < |t| && White(t[i]) {
      SkipBlank(t, i + 1);
      var s, r := t[i..Skip(t, i)], t[i + 1..Skip(t, i)];
      assert s == [t[i]] + r;
    }
  }

  /** Redirections from i up to e, where the parse has skipped the white space after e. */
  ghost predicate RedirsSpelt(t: string, i: nat, items: seq<Item>, e: nat)
    requires i <= |t| && NUL !in t
  {
    && i <= e <= |t| && t[i..e] == Flat(items) && LegalItems(items) && Redirections(items)
    && (items == [] ==> e == i) && (items != [] ==> !WordChar(At(t, e)))
    && Redirs(t, i).Some? && Redirs(t, i).value.1 == Skip(t, e)
  }

  lemma ItemAt(t: string, i: nat, j: nat, p: nat, q: nat, e: nat)
    requires i <= j <= p <= q < e <= |t|
    ensures t[i..e] == ItemText(Item(t[i..j], t[j..p], t[p..q], t[q..e]))
  {
    assert t[q..e] == t[q..e];
    assert t[p..e] == t[p..q] + t[q..e];
    assert t[j..e] == t[j..p] + t[p..e];
    assert t[i..e] == t[i..j] + t[j..e];
  }

  lemma FlatFirst(t: string, i: nat, m: nat, e: nat, x: Item, rest: seq<Item>)
    requires i <= m <= e <= |t| && t[i..m] == ItemText(x) && t[m..e] == Flat(rest)
    ensures t[i..e] == Flat([x] + rest)
  {
    hide ItemText;
    assert t[i..e] == t[i..m] + t[m..e];
    assert ([x] + rest)[1..] == rest;
  }

  lemma TokenShape(t: string, i: nat)
    requires i <= |t| && NUL !in t && TokenAt(t, i).kind == 'a'
    ensures var (q, e) := (Skip(t, i), TokenAt(t, i).arg.eq); TokenAt(t, i) == Token('a', Arg(q, e), Skip(t, e))
  {
    hide Skip, WordEnd, WordChar;
  }

  /** A word that the scan finds, as an item. */
  lemma WordSpelt(t: string, i: nat)
    requires i <= |t| && NUL !in t && TokenAt(t, i).kind == 'a'
    ensures var (q, e) := (Skip(t, i), TokenAt(t, i).arg.eq);
            && q < e <= |t| && TokenAt(t, i) == Token('a', Arg(q, e), Skip(t, e)) && Word(t[q..e])
            && WordChar(t[q]) && !WordChar(At(t, e)) && Blank(t[i..q])
  {
    hide TokenAt, Skip, WordChar, Blank;
    TokenGood(t, i);
    TokenShape(t, i);
    SkipBlank(t, i);
  }

  lemma OperatorSpelt(t: string, j: nat)
    requires j < |t| && NUL !in t && (t[j] == '<' || t[j] == '>')
    ensures var p := TokenAt(t, j).arg.eq;
            var op := t[j..p];
            && j < p <= |t| && TokenAt(t, j).next == Skip(t, p) && (op == "<" || op == ">" || op == ">>")
  {
  }

  lemma {:induction false} RedirsDerived(t: string, i: nat) returns (items: seq<Item>, e: nat)
    requires i <= |t| && NUL !in t && Redirs(t, i).Some?
    ensures RedirsSpelt(t, i, items, e)
    decreases |t| - i
  {
    hide TokenAt, Skip, Word, Blank, WordChar, ItemText, Flat;
    var j := Skip(t, i);
    if At(t, j) == '<' || At(t, j) == '>' {
      OperatorSpelt(t, j);
      var p := TokenAt(t, j).arg.eq;
      TokenAfterSkip(t, p);
      WordSpelt(t, p);
      var q, m := Skip(t, p), TokenAt(t, p).arg.eq;
      RedirsAfterSkip(t, m);
      SkipBlank(t, i);
      var rest;
      rest, e := RedirsDerived(t, m);
      var x := Item(t[i..j], t[j..p], t[p..q], t[q..m]);
      ItemAt(t, i, j, p, q, m);
      FlatFirst(t, i, m, e, x, rest);
      items := [x] + rest;
    } else {
      items, e := [], i;
      FlatNone(items);
      SkipTwice(t, i);
    }
  }

  /** Words and redirections likewise; a first word without white space before it starts at i. */
  ghost predicate WordsSpelt(t: string, i: nat, argc: nat, items: seq<Item>, e: nat)
    requires i <= |t| && NUL !in t
  {
    && i <= e <= |t| && t[i..e] == Flat(items) && LegalItems(items)
    && (items != [] ==> items[0].op == "" && (items[0].pad == "" ==> WordChar(At(t, i))))
    && Words(t, i, argc).Some? && Words(t, i, argc).value.2 == Skip(t, e)
    && (items != [] ==> argc + |WordsIn(items)| < MAXARGS)
  }

  lemma LegalCat(a: seq<Item>, b: seq<Item>)
    requires LegalItems(a) && LegalItems(b) && (a != [] && b != [] && b[0].op == "" ==> b[0].pad != "")
    ensures LegalItems(a + b)
  {
    hide LegalItem;
  }

  lemma {:induction false} WordsDerived(t: string, i: nat, argc: nat) returns (items: seq<Item>, e: nat)
    requires i <= |t| && NUL !in t && Words(t, i, argc).Some?
    ensures WordsSpelt(t, i, argc, items, e)
    decreases |t| - i
  {
    hide TokenAt, Skip, Word, Blank, WordChar, ItemText, Flat, LegalItem, Words, Redirs, WordsIn;
    var j := Skip(t, i);
    WordsAfterSkip(t, i, argc);
    if Stops(t, j) {
      items, e := [], i;
      FlatNone(items);
      WordsStop(t, i, argc);
    } else {
      WordsUnfold(t, j, argc);
      TokenAfterSkip(t, i);
      TokenKind(t, i);
      WordSpelt(t, i);
      var m := TokenAt(t, i).arg.eq;
      RedirsAfterSkip(t, m);
      var heads, p := RedirsDerived(t, m);
      WordsAfterSkip(t, p, argc + 1);
      var tail;
      tail, e := WordsDerived(t, p, argc + 1);
      var x := Item(t[i..j], "", "", t[j..m]);
      assert "" == t[j..j];
      ItemAt(t, i, j, j, j, m);
      LegalWord(x);
      items := [x] + (heads + tail);
      assert t[m..e] == t[m..p] + t[p..e];
      FlatCat(heads, tail);
      FlatFirst(t, i, m, e, x, heads + tail);
      LegalCat(heads, tail);
      LegalCat([x], heads + tail);
      WordsInCat(heads, tail);
      WordsInFirst(x, heads + tail);
      if tail == [] {
        WordsInNone(tail);
      }
      SkipStays(t, i);
    }
  }

  lemma TokenKind(t: string, i: nat)
    requires i <= |t| && NUL !in t
    ensures TokenAt(t, i).kind == NUL <==> At(t, Skip(t, i)) == NUL
  {
  }

  lemma SkipStays(t: string, i: nat)
    requires i <= |t|
    ensures t[i..Skip(t, i)] == "" ==> Skip(t, i) == i
  {
  }

  /** No further word: a closing symbol or the end. */
  predicate Stops(t: string, j: nat) {
    At(t, j) == '|' || At(t, j) == ')' || At(t, j) == '&' || At(t, j) == ';' || At(t, j) == NUL
  }

  lemma WordsStop(t: string, i: nat, argc: nat)
    requires i <= |t| && NUL !in t && Stops(t, Skip(t, i))
    ensures Words(t, i, argc) == Some(([], [], Skip(t, i)))
  {
    SkipTwice(t, i);
    SkipEnd(t);
    if Skip(t, i) < |t| {
      assert t[Skip(t, i)] in t;
    }
  }

  lemma LegalWord(x: Item)
    requires Blank(x.pad) && x.op == "" && x.gap == "" && Word(x.word)
    ensures LegalItems([x])
  {
  }

  lemma WordsInFirst(x: Item, items: seq<Item>)
    requires x.op == ""
    ensures WordsIn([x] + items) == [x.word] + WordsIn(items)
  {
    assert ([x] + items)[1..] == items;
  }

  lemma WordsInNone(items: seq<Item>)
    requires items == []
    ensures WordsIn(items) == []
  {
  }

  ghost predicate UnitSpelt(t: string, i: nat, u: Unit, e: nat)
    requires i <= |t| && NUL !in t
  {
    && i <= e <= |t| && t[i..e] == UnitText(u) && LegalUnit(u)
    && ParseExec(t, i).Some? && ParseExec(t, i).value.1 == Skip(t, e)
  }

  lemma SimpleDerived(t: string, i: nat) returns (items: seq<Item>, e: nat)
    requires i <= |t| && NUL !in t && ParseExec(t, i).Some? && At(t, Skip(t, i)) != '('
    ensures UnitSpelt(t, i, Simple(items), e)
  {
    hide Skip, Words, Redirs, ParseExec, Flat, LegalItem, WordsIn;
    ExecUnfold(t, i);
    var heads, p := RedirsDerived(t, i);
    WordsAfterSkip(t, p, 0);
    var tail;
    tail, e := WordsDerived(t, p, 0);
    items := heads + tail;
    assert t[i..e] == t[i..p] + t[p..e];
    FlatCat(heads, tail);
    LegalCat(heads, tail);
    WordsInCat(heads, tail);
    if tail == [] {
      WordsInNone(tail);
    }
  }

  lemma {:induction false} UnitDerived(t: string, i: nat) returns (u: Unit, e: nat)
    requires i <= |t| && NUL !in t && ParseExec(t, i).Some?
    ensures UnitSpelt(t, i, u, e)
    decreases |t| - i, 0
  {
    hide Skip, Redirs, ParseExec, ParseLine, TokenAt, Flat, LegalItem, Blank;
    var j := Skip(t, i);
    if At(t, j) != '(' {
      var items;
      items, e := SimpleDerived(t, i);
      u := Simple(items);
    } else {
      BlockParsed(t, i);
      var line, m := LineDerived(t, j + 1);
      SkipTwice(t, m);
      var k := Skip(t, m);
      BlockUnfold(t, i, ParseLine(t, j + 1).value.0, k);
      var items;
      items, e := RedirsDerived(t, k + 1);
      u := Block(t[i..j], line, t[m..k], items);
      SkipBlank(t, i);
      SkipBlank(t, m);
      SymbolBetween(t, i, j, '(', e);
      assert t[j + 1..e] == t[j + 1..m] + t[m..e];
      SymbolBetween(t, m, k, ')', e);
    }
  }

  lemma SymbolBetween(t: string, i: nat, j: nat, c: char, e: nat)
    requires i <= j < e <= |t| && t[j] == c
    ensures t[i..e] == t[i..j] + ([c] + t[j + 1..e])
  {
    assert t[j..e] == [c] + t[j + 1..e];
    assert t[i..e] == t[i..j] + t[j..e];
  }

  predicate BlockClosed(t: string, line: Option<(Cmd, nat)>)
    requires NUL !in t
  {
    line.Some? && line.value.1 <= |t| && var k := Skip(t, line.value.1); k < |t| && t[k] == ')' && Redirs(t, k + 1).Some?
  }

  /** A block that was parsed has a line and its closing parenthesis. */
  lemma BlockParsed(t: string, i: nat)
    requires i <= |t| && NUL !in t && ParseExec(t, i).Some? && At(t, Skip(t, i)) == '('
    ensures i <= Skip(t, i) < |t| && BlockClosed(t, ParseLine(t, Skip(t, i) + 1))
  {
    hide ParseLine, Skip, TokenAt, Redirs, Wrap, ParsePipe, Words, WordEnd, Amps;
    var j := Skip(t, i);
    SymbolToken(t, j);
    LineFromSkip(t, j + 1);
    var k := Skip(t, ParseLine(t, j + 1).value.1);
    SymbolToken(t, k);
    RedirsAfterSkip(t, k + 1);
  }

  ghost predicate PipeSpelt(t: string, i: nat, p: Pipeline, e: nat)
    requires i <= |t| && NUL !in t
  {
    && i <= e <= |t| && t[i..e] == PipeText(p) && LegalPipe(p)
    && ParsePipe(t, i).Some? && ParsePipe(t, i).value.1 == Skip(t, e)
  }

  lemma PipeFirst(t: string, i: nat)
    requires i <= |t| && NUL !in t && ParsePipe(t, i).Some?
    ensures ParseExec(t, i).Some?
  {
  }

  lemma {:induction false} PipeDerived(t: string, i: nat) returns (p: Pipeline, e: nat)
    requires i <= |t| && NUL !in t && ParsePipe(t, i).Some?
    ensures PipeSpelt(t, i, p, e)
    decreases |t| - i, 1
  {
    hide Skip, ParseExec, ParsePipe, UnitText, LegalUnit, Blank;
    PipeFirst(t, i);
    var u, m := UnitDerived(t, i);
    PipeUnfold(t, i, ParseExec(t, i).value.0, m);
    var k := Skip(t, m);
    if At(t, k) == '|' {
      var right;
      right, e := PipeDerived(t, k + 1);
      p := Bar(u, t[m..k], right);
      SkipBlank(t, m);
      SymbolBetween(t, m, k, '|', e);
      assert t[i..e] == t[i..m] + t[m..e];
    } else {
      p, e := One(u), m;
    }
  }

  ghost predicate AmpsSpelt(t: string, cmd: Cmd, i: nat, amps: seq<string>, e: nat)
    requires i <= |t| && NUL !in t
  {
    i <= e <= |t| && t[i..e] == AmpsText(amps) && Blanks(amps) && Amps(t, cmd, i).1 == Skip(t, e)
  }

  lemma {:induction false} AmpsDerived(t: string, cmd: Cmd, i: nat) returns (amps: seq<string>, e: nat)
    requires i <= |t| && NUL !in t
    ensures AmpsSpelt(t, cmd, i, amps, e)
    decreases |t| - i
  {
    hide Skip, TokenAt, Blank;
    var j := Skip(t, i);
    if At(t, j) == '&' {
      SymbolToken(t, j);
      AmpsFromSkip(t, Back(cmd), j + 1);
      var more;
      more, e := AmpsDerived(t, Back(cmd), j + 1);
      amps := [t[i..j]] + more;
      SkipBlank(t, i);
      SymbolBetween(t, i, j, '&', e);
      assert amps[1..] == more;
    } else {
      amps, e := [], i;
    }
  }

  ghost predicate LineSpelt(t: string, i: nat, line: Line, e: nat)
    requires i <= |t| && NUL !in t
  {
    && i <= e <= |t| && t[i..e] == LineText(line) && LegalLine(line)
    && ParseLine(t, i).Some? && ParseLine(t, i).value.1 == Skip(t, e)
  }

  lemma LineFirst(t: string, i: nat)
    requires i <= |t| && NUL !in t && ParseLine(t, i).Some?
    ensures ParsePipe(t, i).Some?
  {
    hide ParsePipe, Amps;
  }

  lemma {:induction false} LineDerived(t: string, i: nat) returns (line: Line, e: nat)
    requires i <= |t| && NUL !in t && ParseLine(t, i).Some?
    ensures LineSpelt(t, i, line, e)
    decreases |t| - i, 2
  {
    hide Skip, ParseLine, ParsePipe, PipeText, AmpsText, LegalPipe, Blank, Amps;
    LineFirst(t, i);
    var p, m := PipeDerived(t, i);
    var first := ParsePipe(t, i).value.0;
    var amps, l := AmpsDerived(t, first, m);
    LineUnfold(t, i, first, m, l);
    assert t[i..l] == t[i..m] + t[m..l];
    var k := Skip(t, l);
    if At(t, k) == ';' {
      var rest;
      rest, e := LineDerived(t, k + 1);
      line := Semi(p, amps, t[l..k], rest);
      SkipBlank(t, l);
      SymbolBetween(t, l, k, ';', e);
      assert t[m..e] == t[m..l] + t[l..e];
      assert t[i..e] == t[i..m] + t[m..e];
    } else {
      line, e := Last(p, amps), l;
    }
  }

  /**
   parsecmd accepts exactly the lines of the grammar, whatever white space stands in them, and
   returns what the line means.
   */
  lemma ParsesIff(t: string)
    requires NUL !in t
    ensures Parse(t).Some? <==> exists line, tail :: Spells(t, line, tail)
    ensures forall line, tail :: Spells(t, line, tail) ==> Parse(t).Some? && Meaning(t, Parse(t).value) == LineMeaning(line)
  {
    forall line, tail | Spells(t, line, tail)
      ensures Parse(t).Some? && Meaning(t, Parse(t).value) == LineMeaning(line)
    {
      AllRead(t, line, tail);
    }
    if Parse(t).Some? {
      hide Skip, ParseLine, LegalLine, LineText, Blank;
      var line, e := LineDerived(t, 0);
      SkipTwice(t, e);
      SkipBlank(t, e);
      assert Spells(t, line, t[e..]);
    }
  }

  // ----- every command has a text

  /** What the parser can build: few enough words, none empty or with special characters. */
  predicate Legal(c: Tree<string>) {
    match c
    case Exec(ws) => |ws| < MAXARGS && forall k :: 0 <= k < |ws| ==> Word(ws[k])
    case Redir(sub, file, _) => Legal(sub) && Word(file)
    case Pipe(l, r) => Legal(l) && Legal(r)
    case List(l, r) => Legal(l) && Legal(r)
    case Back(sub) => Legal(sub)
  }

  function Spaced(ws: seq<string>): seq<Item> {
    seq(|ws|, k requires 0 <= k < |ws| => Item(" ", "", "", ws[k]))
  }

  function Only(u: Unit): Line {
    Last(One(u), [])
  }

  /** The fully parenthesised line of a command. */
  function Parenthesised(c: Tree<string>): Line {
    match c
    case Exec(ws) => Only(Simple(Spaced(ws)))
    case Redir(sub, file, out) => Only(Block("", Parenthesised(sub), "", [Item("", if out then ">" else "<", "", file)]))
    case Pipe(l, r) => Last(Bar(Block("", Parenthesised(l), "", []), "", One(Block("", Parenthesised(r), "", []))), [])
    case List(l, r) =>
      Semi(One(Block("", Parenthesised(l), "", [])), [], "", Only(Block("", Parenthesised(r), "", [])))
    case Back(sub) => Last(One(Block("", Parenthesised(sub), "", [])), [""])
  }

  lemma {:induction false} SpacedWords(ws: seq<string>, c: Tree<string>)
    ensures WordsIn(Spaced(ws)) == ws && Around(c, Spaced(ws)) == c
  {
    if ws != [] {
      SpacedWords(ws[1..], c);
      assert Spaced(ws)[1..] == Spaced(ws[1..]);
    }
  }

  lemma OnlyIs(u: Unit)
    ensures LegalLine(Only(u)) == LegalUnit(u) && LineMeaning(Only(u)) == UnitMeaning(u) && LineText(Only(u)) == UnitText(u)
  {
    hide UnitText, UnitMeaning, LegalUnit;
    assert UnitText(u) + "" == UnitText(u);
  }

  lemma BlockIs(line: Line)
    ensures var u := Block("", line, "", []); LegalUnit(u) == LegalLine(line) && UnitMeaning(u) == LineMeaning(line)
  {
  }

  lemma RedirectedIs(line: Line, file: string, out: bool)
    requires Word(file)
    ensures var u := Block("", line, "", [Item("", if out then ">" else "<", "", file)]);
            LegalUnit(u) == LegalLine(line) && UnitMeaning(u) == Redir(LineMeaning(line), file, out)
  {
    AroundOne(LineMeaning(line), Item("", if out then ">" else "<", "", file));
    hide LegalLine, LineMeaning, Around;
  }

  lemma AroundOne(c: Tree<string>, x: Item)
    requires x.op != ""
    ensures Around(c, [x]) == Redir(c, x.word, x.op != "<")
  {
    assert [x][1..] == [];
  }

  lemma {:induction false} ParenthesisedMeans(c: Tree<string>)
    requires Legal(c)
    ensures LegalLine(Parenthesised(c)) && LineMeaning(Parenthesised(c)) == c
  {
    match c
    case Exec(ws) =>
      SpacedWords(ws, c);
      OnlyIs(Simple(Spaced(ws)));
    case Redir(sub, file, out) =>
      ParenthesisedMeans(sub);
      RedirectedIs(Parenthesised(sub), file, out);
      OnlyIs(Block("", Parenthesised(sub), "", [Item("", if out then ">" else "<", "", file)]));
    case Pipe(l, r) =>
      ParenthesisedMeans(l);
      ParenthesisedMeans(r);
      PipeIs(Parenthesised(l), Parenthesised(r));
    case List(l, r) =>
      ParenthesisedMeans(l);
      ParenthesisedMeans(r);
      BlockIs(Parenthesised(l));
      BlockIs(Parenthesised(r));
      OnlyIs(Block("", Parenthesised(r), "", []));
    case Back(sub) =>
      ParenthesisedMeans(sub);
      BlockIs(Parenthesised(sub));
  }

  lemma PipeIs(l: Line, r: Line)
    ensures var p := Bar(Block("", l, "", []), "", One(Block("", r, "", [])));
            LegalPipe(p) == (LegalLine(l) && LegalLine(r)) && PipeMeaning(p) == Pipe(LineMeaning(l), LineMeaning(r))
  {
    BlockIs(l);
    BlockIs(r);
    hide LegalUnit, UnitMeaning, LegalLine, LineMeaning;
  }

  /** Parsing the fully parenthesised form of any legal command gives that command. */
  lemma ParsePrinted(c: Tree<string>)
    requires Legal(c)
    ensures var t := LineText(Parenthesised(c));
            NUL !in t && Parse(t).Some? && Meaning(t, Parse(t).value) == c
  {
    ParenthesisedMeans(c);
    hide *;
    AllRead(LineText(Parenthesised(c)), Parenthesised(c), "");
  }

  /** A simple command, words and redirections mixed: the redirections, in their order, around the words. */
  lemma ParseFlat(items: seq<Item>)
    requires LegalItems(items) && |WordsIn(items)| < MAXARGS
    ensures var t := Flat(items);
            NUL !in t && Parse(t).Some? && Meaning(t, Parse(t).value) == Around(Exec(WordsIn(items)), items)
  {
    var u := Simple(items);
    OnlyIs(u);
    assert Flat(items) + "" == Flat(items) && UnitText(u) == Flat(items) && UnitMeaning(u) == Around(Exec(WordsIn(items)), items);
    assert LegalUnit(u);
    hide LegalUnit, UnitText, UnitMeaning, Around, Flat, WordsIn, Only, Parse, LegalItems, LegalLine, LineText;
    AllRead(Flat(items), Only(u), "");
  }

  // ----- parsecmd

  /** parsecmd: the command, and a buffer in which each of its words is a C string; None if it panics. */
  method ParseCommand(buf: array<char>, ghost t: string) returns (r: Option<Cmd>)
    requires buf.Length == |t| + 1 && buf[..|t|] == t && buf[|t|] == NUL && NUL !in t
    modifies buf
    ensures r == Parse(t)
    ensures r.Some? <==> exists line, tail :: Spells(t, line, tail)
    ensures forall line, tail :: Spells(t, line, tail) ==> r.Some? && Meaning(t, r.value) == LineMeaning(line)
    ensures r.Some? ==> Terminated(t, r.value, buf[..])
    ensures r.Some? ==> forall a :: a in Args(r.value) ==> a.q <= a.eq <= |t| && StringAt(buf[..], a.q) == t[a.q..a.eq]
  {
    hide Parse, Spells, Meaning, LineMeaning;
    ParsesIff(t);
    var parser := new Parser(buf, t);
    r := parser.ParseCmd();
    if r.Some? {
      ParsedGood(t, r.value);
      assert forall i: nat :: i < buf.Length ==> buf[i] == At(t, i) by {
        assert forall i: nat :: i < |t| ==> buf[i] == buf[..|t|][i];
      }
      parser.NulTerminate(r.value);
      forall a | a in Args(r.value)
        ensures a.q <= a.eq <= |t| && StringAt(buf[..], a.q) == t[a.q..a.eq]
      {
        WordsTerminated(t, r.value, buf[..], a);
      }
    }
  }
}
