// The csh parser: precedence by scanning for operators at depth 0.
module CshParse {
  import opened Basics
  import opened CshSyntax

  // The tree of a command list, or the first error the parser reports. The
  // words are s, the word behind them is e.
  function Syntax(s: seq<Word>, e: Word, cx: Context): Result<Tree, Error>
    decreases |s| - Skip(s), 7
  {
    if Skip(s) < |s| then Syn0(s[Skip(s)..], e, cx) else Ok(Null)
  }

  // The tree of a command in the background.
  function Background(t: Tree): Tree {
    var f := {AMPERSAND, NOINTERRUPT};
    match t
    case Null => Null
    case List(_, _) => Paren(t, Io(None, None, f))
    case And(_, _, _) => Paren(t, Io(None, None, f))
    case Or(_, _, _) => Paren(t, Io(None, None, f))
    case Command(words, io) => Command(words, io.(flags := io.flags + f))
    case Paren(sub, io) => Paren(sub, io.(flags := io.flags + f))
    case Pipe(car, cdr, flags) => Pipe(car, cdr, flags + f)
  }

  // The flags of a tree, and the tree with others.
  function Flags(t: Tree): set<Flag> {
    match t
    case Null => {}
    case List(_, _) => {}
    case And(_, _, flags) => flags
    case Or(_, _, flags) => flags
    case Command(_, io) => io.flags
    case Paren(_, io) => io.flags
    case Pipe(_, _, flags) => flags
  }

  function Flagged(t: Tree, f: set<Flag>): Tree {
    match t
    case Null => Null
    case List(_, _) => t
    case And(car, cdr, _) => And(car, cdr, f)
    case Or(car, cdr, _) => Or(car, cdr, f)
    case Command(words, io) => Command(words, io.(flags := f))
    case Paren(sub, io) => Paren(sub, io.(flags := f))
    case Pipe(car, cdr, _) => Pipe(car, cdr, f)
  }

  // What & puts in the background runs there and cannot be interrupted, a whole
  // pipe as well as a command; it is the command that it was but for these two
  // flags, or a subshell for the list it was.
  lemma BackgroundRuns(t: Tree)
    requires !t.Null?
    ensures var u, both := Background(t), {AMPERSAND, NOINTERRUPT};
      && (u.Command? || u.Paren? || u.Pipe?) && both <= Flags(u)
      && (t.List? || t.And? || t.Or? ==> u.Paren? && u.sub == t && Flags(u) == both && u.io.lef == u.io.rit == None)
      && (!t.List? && !t.And? && !t.Or? ==> Flags(u) == Flags(t) + both && Flagged(u, Flags(t)) == t)
  {
  }

  function Syn0(s: seq<Word>, e: Word, cx: Context): Result<Tree, Error>
    decreases |s|, 6
  {
    FindAmpNested(s, 0);
    match FindAmp(s, 0)
    case Bad(error) => Err(error)
    case Nowhere => Syn1(s, e, cx)
    case At(i) =>
      match Syn1(s[..i], s[i], cx)
      case Err(error) => Err(error)
      case Ok(t) =>
        match Syntax(s[i..], e, cx)
        case Err(error) => Err(error)
        case Ok(u) => Ok(List(Background(t), u))
  }

  // The node that the operator makes of its two sides; diag for |&.
  function Node(op: Op, t: Tree, u: Tree, diag: bool): Tree {
    match op
    case SEMI => if u == Null then List(Null, t) else List(t, u)
    case OR => Or(t, u, {})
    case AND => And(t, u, {})
    case BAR => Pipe(t, u, if diag then {STDERR} else {})
  }

  function Both(op: Op, t: Result<Tree, Error>, u: Result<Tree, Error>, diag: bool): Result<Tree, Error> {
    if t.Err? then t else if u.Err? then u else Ok(Node(op, t.value, u.value, diag))
  }

  function Syn1(s: seq<Word>, e: Word, cx: Context): Result<Tree, Error>
    requires Nested(s, 0)
    decreases |s|, 5
  {
    FindNested(SEMI, s, 0);
    var i := Find(SEMI, s, 0);
    if i == |s| then Syn1a(s, e, cx)
    else Both(SEMI, Syn1a(s[..i], s[i], cx), Syntax(s[i + 1..], e, cx), false)
  }

  function Syn1a(s: seq<Word>, e: Word, cx: Context): Result<Tree, Error>
    requires Nested(s, 0)
    decreases |s|, 4
  {
    FindNested(OR, s, 0);
    var i := Find(OR, s, 0);
    if i == |s| then Syn1b(s, e, cx)
    else Both(OR, Syn1b(s[..i], s[i], cx), Syn1a(s[i + 1..], e, cx), false)
  }

  function Syn1b(s: seq<Word>, e: Word, cx: Context): Result<Tree, Error>
    requires Nested(s, 0)
    decreases |s|, 3
  {
    FindNested(AND, s, 0);
    var i := Find(AND, s, 0);
    if i == |s| then Syn2(s, e, cx)
    else Both(AND, Syn2(s[..i], s[i], cx), Syn1b(s[i + 1..], e, cx), false)
  }

  function Syn2(s: seq<Word>, e: Word, cx: Context): Result<Tree, Error>
    requires Nested(s, 0)
    decreases |s|, 2
  {
    FindNested(BAR, s, 0);
    var i := Find(BAR, s, 0);
    if i == |s| then Syn3(s, e, cx) else
    var diag := i + 1 < |s| && First(s[i + 1]) == '&';
    Both(BAR, Syn3(s[..i], s[i], cx.(pout := true, pdiag := cx.pdiag || diag)),
      Syn2(s[if diag then i + 2 else i + 1..], e, cx.(pin := true)), diag)
  }

  // What the second scan of syn3 starts with.
  function Start(e: Word): State {
    State([], None, None, Io(None, None, if First(e) == ')' then {NOFORK} else {}))
  }

  function Syn3(s: seq<Word>, e: Word, cx: Context): Result<Tree, Error>
    requires Nested(s, 0)
    decreases |s|, 1
  {
    Delimited(s, 0, 0, Start(e), Special(s), cx);
    match Scan(s, 0, 0, Start(e), Special(s), cx)
    case Err(error) => Err(error)
    case Ok(st) =>
      if st.lp.Some? && !Special(s) then
        if st.words != [] then Err(BADPLPS) else
        match Syn0(s[st.lp.value..st.rp.value], s[st.rp.value], Context(true, false, false, false))
        case Err(error) => Err(error)
        case Ok(t) => Ok(Paren(t, st.io))
      else if st.words == [] then Err(NULLCOM)
      else Ok(Command(st.words, st.io))
  }
}
