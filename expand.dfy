/**
 * `expand_input`: `re.sub` of `\\input\{([^}]+)\}` over the text, each
 * match replaced by the recursive expansion of the named file or by a
 * comment when the file does not exist. The scan of `re.sub` is written
 * out as a split of the text into pieces: single characters kept as they
 * are, and `\input{name}` directives.
 */
module Expand {
  import opened Wrappers
  import opened Text

  const InputCommand: string := "\\input{"

  /** One step of the left-to-right scan. */
  datatype Piece = Char(c: char) | Input(name: string)

  /** `[^}]+`: what a directive's argument can be. */
  predicate ValidName(name: string)
  {
    |name| > 0 && forall k :: 0 <= k < |name| ==> name[k] != '}'
  }

  /** The pattern matches s[i..c + 1]: `\input{` at i, then one or more
      characters other than `}`, then the `}` at c. */
  predicate DirectiveAt(s: string, i: int, c: int)
  {
    && 0 <= i && i + |InputCommand| < c < |s|
    && s[i..i + |InputCommand|] == InputCommand
    && s[c] == '}'
    && forall k :: i + |InputCommand| <= k < c ==> s[k] != '}'
  }

  /** The first `}` at or after `from`. */
  function FirstClose(s: string, from: nat): (r: Option<nat>)
    ensures r.Some? ==> from <= r.value < |s| && s[r.value] == '}'
    ensures r.Some? ==> forall k :: from <= k < r.value ==> s[k] != '}'
    ensures r.None? ==> forall k :: from <= k < |s| ==> s[k] != '}'
    decreases |s| - from
  {
    if from >= |s| then None
    else if s[from] == '}' then Some(from)
    else FirstClose(s, from + 1)
  }

  /** The length of the match at the start of s: the argument runs up to
      the first `}`, and there must be at least one character before it. */
  function MatchLength(s: string): Option<nat>
  {
    if |s| < |InputCommand| || s[..|InputCommand|] != InputCommand then None
    else match FirstClose(s, |InputCommand|)
      case None => None
      case Some(c) => if c == |InputCommand| then None else Some(c + 1)
  }

  /** The scanner's match at the start of s is exactly the pattern's. */
  lemma MatchLengthIff(s: string)
    ensures MatchLength(s).Some? ==> DirectiveAt(s, 0, MatchLength(s).value - 1)
    ensures MatchLength(s).None? ==> forall c :: !DirectiveAt(s, 0, c)
  {
  }

  /** `re.sub`'s scan: at each position, a match is replaced and the scan
      resumes after it; otherwise one character is kept. */
  function Pieces(s: string): seq<Piece>
    decreases |s|
  {
    if s == [] then []
    else match MatchLength(s)
      case Some(n) => [Input(s[|InputCommand|..n - 1])] + Pieces(s[n..])
      case None => [Char(s[0])] + Pieces(s[1..])
  }

  /** The text a piece stands for. */
  function PieceText(p: Piece): string
  {
    match p
    case Char(c) => [c]
    case Input(name) => InputCommand + name + "}"
  }

  /** The text a sequence of pieces stands for. */
  function Unparse(ps: seq<Piece>): string
  {
    if ps == [] then "" else PieceText(ps[0]) + Unparse(ps[1..])
  }

  /** Unparsing a piece in front. */
  lemma UnparseCons(p: Piece, ps: seq<Piece>)
    ensures Unparse([p] + ps) == PieceText(p) + Unparse(ps)
  {
    assert ([p] + ps)[1..] == ps;
  }

  /** A text that starts with a directive of length n is that directive
      followed by the rest. */
  lemma SplitAtDirective(s: string, n: nat)
    requires DirectiveAt(s, 0, n - 1)
    ensures s == InputCommand + s[|InputCommand|..n - 1] + "}" + s[n..]
  {
    var name := s[|InputCommand|..n - 1];
    calc {
      s;
      s[..|InputCommand|] + s[|InputCommand|..];
      { assert s[|InputCommand|..] == name + s[n - 1..]; }
      InputCommand + (name + s[n - 1..]);
      { assert s[n - 1..] == [s[n - 1]] + s[n..]; }
      InputCommand + name + "}" + s[n..];
    }
  }

  /** The round trip past a directive at the start. */
  lemma RoundTripDirective(s: string, n: nat)
    requires s != [] && MatchLength(s) == Some(n)
    requires Unparse(Pieces(s[n..])) == s[n..]
    ensures Unparse(Pieces(s)) == s
  {
    MatchLengthIff(s);
    var name := s[|InputCommand|..n - 1];
    assert Pieces(s) == [Input(name)] + Pieces(s[n..]);
    UnparseCons(Input(name), Pieces(s[n..]));
    SplitAtDirective(s, n);
  }

  /** The scan loses nothing and reorders nothing: the pieces spell out the
      text. */
  lemma {:induction false} PiecesRoundTrip(s: string)
    ensures Unparse(Pieces(s)) == s
    decreases |s|
  {
    if s != [] {
      match MatchLength(s)
      case Some(n) =>
        PiecesRoundTrip(s[n..]);
        RoundTripDirective(s, n);
      case None =>
        PiecesRoundTrip(s[1..]);
        UnparseCons(Char(s[0]), Pieces(s[1..]));
        assert s == [s[0]] + s[1..];
    }
  }

  /** Every directive the scan finds has an argument of one or more
      characters other than `}`. */
  lemma {:induction false} PiecesHaveValidNames(s: string)
    ensures forall k :: 0 <= k < |Pieces(s)| && Pieces(s)[k].Input? ==> ValidName(Pieces(s)[k].name)
    decreases |s|
  {
    if s != [] {
      MatchLengthIff(s);
      match MatchLength(s)
      case Some(n) =>
        PiecesHaveValidNames(s[n..]);
        var name := s[|InputCommand|..n - 1];
        assert forall j :: 0 <= j < |name| ==> name[j] == s[|InputCommand| + j];
      case None =>
        PiecesHaveValidNames(s[1..]);
    }
  }

  /** The sequence holds at least one directive. */
  predicate HasInput(ps: seq<Piece>)
  {
    exists k :: 0 <= k < |ps| && ps[k].Input?
  }

  /** Directive positions shift with the text. */
  lemma DirectiveAtShift(s: string, i: int, c: int)
    requires s != [] && 0 <= i
    ensures DirectiveAt(s, i + 1, c + 1) <==> DirectiveAt(s[1..], i, c)
  {
    if i + |InputCommand| < c < |s| - 1 {
      assert s[i + 1..i + 1 + |InputCommand|] == s[1..][i..i + |InputCommand|];
      assert forall k :: i + |InputCommand| <= k < c ==> s[1..][k] == s[k + 1];
    }
  }

  /** The scan finds a directive exactly when the pattern matches somewhere. */
  lemma {:induction false} DirectiveFoundIff(s: string)
    ensures HasInput(Pieces(s)) <==> exists i, c :: DirectiveAt(s, i, c)
    decreases |s|
  {
    if s != [] {
      MatchLengthIff(s);
      match MatchLength(s)
      case Some(n) =>
        assert Pieces(s)[0].Input?;
        assert DirectiveAt(s, 0, n - 1);
      case None =>
        DirectiveFoundIff(s[1..]);
        var rest := Pieces(s[1..]);
        assert Pieces(s) == [Char(s[0])] + rest;
        if HasInput(rest) {
          var k :| 0 <= k < |rest| && rest[k].Input?;
          assert Pieces(s)[k + 1].Input?;
          var i, c :| DirectiveAt(s[1..], i, c);
          DirectiveAtShift(s, i, c);
        } else {
          forall i, c ensures !DirectiveAt(s, i, c) {
            if i > 0 {
              DirectiveAtShift(s, i - 1, c - 1);
            }
          }
          forall k | 0 <= k < |Pieces(s)| ensures !Pieces(s)[k].Input? {
            if k > 0 {
              assert Pieces(s)[k] == rest[k - 1];
            }
          }
        }
    }
  }

  /** Where the pattern does not match, `re.sub` keeps the character and
      resumes the scan after it. */
  lemma PiecesCons(c: char, rest: string)
    requires forall k :: !DirectiveAt([c] + rest, 0, k)
    ensures Pieces([c] + rest) == [Char(c)] + Pieces(rest)
  {
    MatchLengthIff([c] + rest);
    assert ([c] + rest)[1..] == rest;
  }

  /** A well-formed directive at the start is one piece. */
  lemma PiecesDirective(name: string, rest: string)
    requires ValidName(name)
    ensures Pieces(InputCommand + name + "}" + rest) == [Input(name)] + Pieces(rest)
  {
    var s := InputCommand + name + "}" + rest;
    var c := |InputCommand| + |name|;
    assert s[..|InputCommand|] == InputCommand;
    assert s[c] == '}';
    assert forall k :: |InputCommand| <= k < c ==> s[k] == name[k - |InputCommand|];
    assert DirectiveAt(s, 0, c);
    MatchLengthIff(s);
    assert MatchLength(s) == Some(c + 1);
    assert s[|InputCommand|..c] == name;
    assert s[c + 1..] == rest;
  }

  /** The file system as the expansion sees it: the directory names are
      resolved against, the text of every existing file by path, and
      `os.path.join`. */
  datatype Env = Env(base: string, files: map<string, string>, join: (string, string) -> string)

  /** `.tex` is appended only when the name does not already end with it. */
  function Normalize(name: string): string
  {
    if EndsWith(name, ".tex") then name else name + ".tex"
  }

  /** The path a directive names, always relative to the same base. */
  function IncludePath(env: Env, name: string): string
  {
    env.join(env.base, Normalize(name))
  }

  /** What replaces a directive whose file does not exist. */
  function NotFound(name: string): string
  {
    "% File not found: " + Normalize(name)
  }

  /** Both parts, concatenated, or nothing when either is missing. */
  function Concat(x: Option<string>, y: Option<string>): Option<string>
  {
    if x.Some? && y.Some? then Some(x.value + y.value) else None
  }

  /** The expansion of a text. `fuel` bounds how deeply includes nest;
      `None` stands for the recursion running out, as it does for a file
      that includes itself. */
  function ExpandText(s: string, env: Env, fuel: nat): Option<string>
    decreases fuel, 2, 0
  {
    ExpandPieces(Pieces(s), env, fuel)
  }

  /** The replacements of a sequence of pieces, left to right. */
  function ExpandPieces(ps: seq<Piece>, env: Env, fuel: nat): Option<string>
    decreases fuel, 1, |ps|
  {
    if ps == [] then Some("")
    else Concat(ExpandPiece(ps[0], env, fuel), ExpandPieces(ps[1..], env, fuel))
  }

  /** `replace_input`: an existing file is replaced by its own expansion
      with the same environment, a missing one by a comment. */
  function ExpandPiece(p: Piece, env: Env, fuel: nat): Option<string>
    decreases fuel, 0, 0
  {
    match p
    case Char(c) => Some([c])
    case Input(name) =>
      var path := IncludePath(env, name);
      if path in env.files then
        if fuel == 0 then None else ExpandText(env.files[path], env, fuel - 1)
      else Some(NotFound(name))
  }
}

/** Properties of the include expansion. */
module ExpandFacts {
  import opened Wrappers
  import opened Text
  import opened Expand

  /** Concatenation of optional texts is associative. */
  lemma ConcatAssociative(x: Option<string>, y: Option<string>, z: Option<string>)
    ensures Concat(x, Concat(y, z)) == Concat(Concat(x, y), z)
  {
    if x.Some? && y.Some? && z.Some? {
      assert x.value + (y.value + z.value) == (x.value + y.value) + z.value;
    }
  }

  /** A single piece expands as itself. */
  lemma ExpandSinglePiece(p: Piece, env: Env, fuel: nat)
    ensures ExpandPieces([p], env, fuel) == ExpandPiece(p, env, fuel)
  {
    assert [p][1..] == [];
    var x := ExpandPiece(p, env, fuel);
    if x.Some? {
      assert x.value + "" == x.value;
    }
  }

  /** Replacements are made piece by piece: expanding a concatenation of
      pieces concatenates the expansions. */
  lemma {:induction false} ExpandPiecesAppend(p1: seq<Piece>, p2: seq<Piece>, env: Env, fuel: nat)
    ensures ExpandPieces(p1 + p2, env, fuel) == Concat(ExpandPieces(p1, env, fuel), ExpandPieces(p2, env, fuel))
  {
    if p1 == [] {
      assert p1 + p2 == p2;
      var y := ExpandPieces(p2, env, fuel);
      if y.Some? {
        assert "" + y.value == y.value;
      }
    } else {
      ExpandPiecesAppend(p1[1..], p2, env, fuel);
      assert (p1 + p2)[1..] == p1[1..] + p2;
      ConcatAssociative(ExpandPiece(p1[0], env, fuel), ExpandPieces(p1[1..], env, fuel), ExpandPieces(p2, env, fuel));
    }
  }

  /** Pieces without directives expand to the text they spell. */
  lemma {:induction false} CharsExpandToThemselves(ps: seq<Piece>, env: Env, fuel: nat)
    requires !HasInput(ps)
    ensures ExpandPieces(ps, env, fuel) == Some(Unparse(ps))
  {
    if ps != [] {
      assert !HasInput(ps[1..]) by {
        forall k | 0 <= k < |ps[1..]| ensures !ps[1..][k].Input? {
          assert ps[1..][k] == ps[k + 1];
        }
      }
      CharsExpandToThemselves(ps[1..], env, fuel);
    }
  }

  /** Text in which the pattern matches nowhere is returned unchanged. */
  lemma NoDirectiveUnchanged(s: string, env: Env, fuel: nat)
    requires forall i, c :: !DirectiveAt(s, i, c)
    ensures ExpandText(s, env, fuel) == Some(s)
  {
    DirectiveFoundIff(s);
    CharsExpandToThemselves(Pieces(s), env, fuel);
    PiecesRoundTrip(s);
  }

  /** The pattern needs an argument, so it has no match at `\input{}`. */
  lemma EmptyDirectiveNoMatch(s: string)
    requires |InputCommand| < |s| && s[..|InputCommand|] == InputCommand && s[|InputCommand|] == '}'
    ensures forall c :: !DirectiveAt(s, 0, c)
  {
  }

  /** `\input{}` is a backslash followed by seven characters, none of them a
      backslash. */
  lemma EmptyDirectiveSplit()
    ensures InputCommand + "}" == ['\\'] + "input{}"
    ensures forall k :: 0 <= k < |"input{}"| ==> "input{}"[k] != '\\'
  {
  }

  /** A character that starts no match, followed by characters other than
      a backslash, is kept character by character. */
  lemma KeptPrefix(c: char, t: string, rest: string)
    requires forall k :: !DirectiveAt([c] + t + rest, 0, k)
    requires forall k :: 0 <= k < |t| ==> t[k] != '\\'
    ensures Pieces([c] + t + rest) == CharPieces([c] + t) + Pieces(rest)
  {
    assert [c] + t + rest == [c] + (t + rest);
    PiecesCons(c, t + rest);
    PiecesPlainPrefix(t, rest);
    CharPiecesCons(c, t);
    SeqAssociative([Char(c)], CharPieces(t), Pieces(rest));
  }

  /** The character pieces of a non-empty text start with its first one. */
  lemma CharPiecesCons(c: char, t: string)
    ensures CharPieces([c] + t) == [Char(c)] + CharPieces(t)
  {
    assert ([c] + t)[1..] == t;
  }

  /** Sequence concatenation is associative. */
  lemma SeqAssociative<T>(a: seq<T>, b: seq<T>, c: seq<T>)
    ensures a + (b + c) == (a + b) + c
  {
  }

  /** `\input{}` has no argument, so wherever it stands the scan keeps its
      characters and goes on after it. */
  lemma EmptyDirectivePieces(rest: string)
    ensures Pieces(InputCommand + "}" + rest) == CharPieces(InputCommand + "}") + Pieces(rest)
  {
    var s := InputCommand + "}" + rest;
    EmptyDirectiveSplit();
    assert s[..|InputCommand|] == InputCommand && s[|InputCommand|] == '}';
    EmptyDirectiveNoMatch(s);
    KeptPrefix('\\', "input{}", rest);
  }

  /** `\input{}` is left as it is wherever it stands, and the text after it
      is expanded as it would be on its own. */
  lemma EmptyDirectiveVerbatim(rest: string, env: Env, fuel: nat)
    ensures ExpandText(InputCommand + "}" + rest, env, fuel) == Concat(Some(InputCommand + "}"), ExpandText(rest, env, fuel))
  {
    EmptyDirectivePieces(rest);
    ExpandPiecesAppend(CharPieces(InputCommand + "}"), Pieces(rest), env, fuel);
    ExpandCharPieces(InputCommand + "}", env, fuel);
  }

  /** An `\input{` never closed by `}` is left as it is. */
  lemma UnterminatedDirectiveVerbatim(name: string, env: Env, fuel: nat)
    requires forall k :: 0 <= k < |name| ==> name[k] != '}'
    ensures ExpandText(InputCommand + name, env, fuel) == Some(InputCommand + name)
  {
    var s := InputCommand + name;
    assert forall k :: |InputCommand| <= k < |s| ==> s[k] == name[k - |InputCommand|];
    assert forall k :: 0 <= k < |InputCommand| ==> s[k] != '}';
    NoDirectiveUnchanged(s, env, fuel);
  }

  /** A text that is one directive expands as that directive's piece. */
  lemma SingleDirective(name: string, env: Env, fuel: nat)
    requires ValidName(name)
    ensures ExpandText(InputCommand + name + "}", env, fuel) == ExpandPiece(Input(name), env, fuel)
  {
    PiecesDirective(name, "");
    assert InputCommand + name + "}" + "" == InputCommand + name + "}";
    ExpandSinglePiece(Input(name), env, fuel);
  }

  /** A missing file becomes the comment naming it after `.tex` has been
      appended, whatever the nesting depth. */
  lemma MissingInclude(name: string, env: Env, fuel: nat)
    requires ValidName(name) && IncludePath(env, name) !in env.files
    ensures ExpandText(InputCommand + name + "}", env, fuel) == Some("% File not found: " + Normalize(name))
    ensures EndsWith(Normalize(name), ".tex")
    ensures Normalize(name) == name || Normalize(name) == name + ".tex"
  {
    SingleDirective(name, env, fuel);
    assert (name + ".tex")[|name + ".tex"| - 4..] == ".tex";
  }

  /** `\input{a}` and `\input{a.tex}` expand the same way. */
  lemma TexSuffixOptional(name: string, env: Env, fuel: nat)
    requires ValidName(name) && !EndsWith(name, ".tex")
    ensures ExpandText(InputCommand + name + "}", env, fuel)
         == ExpandText(InputCommand + (name + ".tex") + "}", env, fuel)
  {
    var full := name + ".tex";
    assert full[|full| - 4..] == ".tex";
    assert forall k :: 0 <= k < |full| ==> full[k] != '}' by {
      assert forall k :: 0 <= k < |name| ==> full[k] == name[k];
    }
    SingleDirective(name, env, fuel);
    SingleDirective(full, env, fuel);
  }

  /** An existing file replaces its directive by its own expansion, one
      level deeper, wherever the directive stands: the pieces before and
      after it are expanded as they would be on their own. */
  lemma IncludedFileIsLocal(ps: seq<Piece>, k: nat, env: Env, fuel: nat)
    requires k < |ps| && ps[k].Input? && IncludePath(env, ps[k].name) in env.files
    ensures ExpandPieces(ps, env, fuel + 1)
         == Concat(Concat(ExpandPieces(ps[..k], env, fuel + 1), ExpandText(env.files[IncludePath(env, ps[k].name)], env, fuel)),
                   ExpandPieces(ps[k + 1..], env, fuel + 1))
  {
    assert ps == ps[..k] + ([ps[k]] + ps[k + 1..]);
    ExpandPiecesAppend(ps[..k], [ps[k]] + ps[k + 1..], env, fuel + 1);
    ExpandPiecesAppend([ps[k]], ps[k + 1..], env, fuel + 1);
    ExpandSinglePiece(ps[k], env, fuel + 1);
    ConcatAssociative(ExpandPieces(ps[..k], env, fuel + 1), ExpandText(env.files[IncludePath(env, ps[k].name)], env, fuel),
                      ExpandPieces(ps[k + 1..], env, fuel + 1));
  }

  /** A directive anywhere inside an included file is resolved against the
      original base directory, not the directory of the file that contains
      it. */
  lemma NestedIncludeUsesBase(a: string, k: nat, env: Env, fuel: nat)
    requires ValidName(a) && IncludePath(env, a) in env.files
    requires var ps := Pieces(env.files[IncludePath(env, a)]);
      k < |ps| && ps[k].Input? && env.join(env.base, Normalize(ps[k].name)) in env.files
    ensures var ps := Pieces(env.files[IncludePath(env, a)]);
      ExpandText(InputCommand + a + "}", env, fuel + 2)
      == Concat(Concat(ExpandPieces(ps[..k], env, fuel + 1),
                       ExpandText(env.files[env.join(env.base, Normalize(ps[k].name))], env, fuel)),
                ExpandPieces(ps[k + 1..], env, fuel + 1))
  {
    SingleDirective(a, env, fuel + 2);
    IncludedFileIsLocal(Pieces(env.files[IncludePath(env, a)]), k, env, fuel);
  }

  /** A missing file affects only its own directive: the pieces before and
      after it are expanded as they would be on their own. */
  lemma MissingFileIsLocal(ps: seq<Piece>, k: nat, env: Env, fuel: nat)
    requires k < |ps| && ps[k].Input? && IncludePath(env, ps[k].name) !in env.files
    ensures ExpandPieces(ps, env, fuel)
         == Concat(Concat(ExpandPieces(ps[..k], env, fuel), Some(NotFound(ps[k].name))),
                   ExpandPieces(ps[k + 1..], env, fuel))
  {
    assert ps == ps[..k] + ([ps[k]] + ps[k + 1..]);
    ExpandPiecesAppend(ps[..k], [ps[k]] + ps[k + 1..], env, fuel);
    ExpandPiecesAppend([ps[k]], ps[k + 1..], env, fuel);
    ExpandSinglePiece(ps[k], env, fuel);
    ConcatAssociative(ExpandPieces(ps[..k], env, fuel), Some(NotFound(ps[k].name)), ExpandPieces(ps[k + 1..], env, fuel));
  }

  /** More fuel never changes an expansion that completed. */
  lemma TextFuelMonotone(s: string, env: Env, fuel: nat, more: nat)
    requires fuel <= more && ExpandText(s, env, fuel).Some?
    ensures ExpandText(s, env, more) == ExpandText(s, env, fuel)
    decreases fuel, 2, 0
  {
    PiecesFuelMonotone(Pieces(s), env, fuel, more);
  }

  /** More fuel never changes a completed expansion of pieces. */
  lemma PiecesFuelMonotone(ps: seq<Piece>, env: Env, fuel: nat, more: nat)
    requires fuel <= more && ExpandPieces(ps, env, fuel).Some?
    ensures ExpandPieces(ps, env, more) == ExpandPieces(ps, env, fuel)
    decreases fuel, 1, |ps|
  {
    if ps != [] {
      PieceFuelMonotone(ps[0], env, fuel, more);
      PiecesFuelMonotone(ps[1..], env, fuel, more);
    }
  }

  /** More fuel never changes a completed expansion of one piece. */
  lemma PieceFuelMonotone(p: Piece, env: Env, fuel: nat, more: nat)
    requires fuel <= more && ExpandPiece(p, env, fuel).Some?
    ensures ExpandPiece(p, env, more) == ExpandPiece(p, env, fuel)
    decreases fuel, 0, 0
  {
    if p.Input? && IncludePath(env, p.name) in env.files {
      TextFuelMonotone(env.files[IncludePath(env, p.name)], env, fuel - 1, more - 1);
    }
  }

  /** Every existing file the pieces include has a rank below `bound`. */
  predicate IncludesBelow(ps: seq<Piece>, env: Env, rank: map<string, nat>, bound: nat)
  {
    forall k :: 0 <= k < |ps| && ps[k].Input? && IncludePath(env, ps[k].name) in env.files ==>
      IncludePath(env, ps[k].name) in rank && rank[IncludePath(env, ps[k].name)] < bound
  }

  /** The include graph is acyclic, witnessed by a rank that strictly
      decreases from every file to each file it includes. */
  predicate Ranked(env: Env, rank: map<string, nat>)
  {
    forall p :: p in env.files ==> p in rank && IncludesBelow(Pieces(env.files[p]), env, rank, rank[p])
  }

  /** With an acyclic include graph, fuel above the ranks of the directly
      included files suffices: the expansion completes. */
  lemma TextTerminates(s: string, env: Env, rank: map<string, nat>, fuel: nat)
    requires Ranked(env, rank) && IncludesBelow(Pieces(s), env, rank, fuel)
    ensures ExpandText(s, env, fuel).Some?
    decreases fuel, 2, 0
  {
    PiecesTerminate(Pieces(s), env, rank, fuel);
  }

  /** Pieces whose includes are ranked below the fuel expand completely. */
  lemma PiecesTerminate(ps: seq<Piece>, env: Env, rank: map<string, nat>, fuel: nat)
    requires Ranked(env, rank) && IncludesBelow(ps, env, rank, fuel)
    ensures ExpandPieces(ps, env, fuel).Some?
    decreases fuel, 1, |ps|
  {
    if ps != [] {
      PieceTerminates(ps[0], env, rank, fuel);
      assert IncludesBelow(ps[1..], env, rank, fuel) by {
        forall k | 0 <= k < |ps[1..]| ensures ps[1..][k] == ps[k + 1] { }
      }
      PiecesTerminate(ps[1..], env, rank, fuel);
    }
  }

  /** A piece whose include is ranked below the fuel expands completely. */
  lemma PieceTerminates(p: Piece, env: Env, rank: map<string, nat>, fuel: nat)
    requires Ranked(env, rank) && IncludesBelow([p], env, rank, fuel)
    ensures ExpandPiece(p, env, fuel).Some?
    decreases fuel, 0, 0
  {
    if p.Input? && IncludePath(env, p.name) in env.files {
      var path := IncludePath(env, p.name);
      assert [p][0] == p;
      var inner := Pieces(env.files[path]);
      assert IncludesBelow(inner, env, rank, fuel - 1);
      TextTerminates(env.files[path], env, rank, fuel - 1);
    }
  }

  /** One directive whose expansion does not complete stops the whole
      sequence from completing. */
  lemma ExpandPiecesStuck(ps: seq<Piece>, k: nat, env: Env, fuel: nat)
    requires k < |ps| && ExpandPiece(ps[k], env, fuel).None?
    ensures ExpandPieces(ps, env, fuel).None?
  {
    assert ps == ps[..k] + ([ps[k]] + ps[k + 1..]);
    ExpandPiecesAppend(ps[..k], [ps[k]] + ps[k + 1..], env, fuel);
    ExpandPiecesAppend([ps[k]], ps[k + 1..], env, fuel);
    ExpandSinglePiece(ps[k], env, fuel);
  }

  /** The piece of file p that continues the cycle. */
  function Via(next: map<string, nat>, p: string): nat
    requires p in next
  {
    next[p]
  }

  /** An include cycle, direct or through other files: every file p named
      by `next` exists, and its piece number `Via(next, p)` is a directive
      naming a file that `next` names again. */
  predicate IncludeCycle(env: Env, next: map<string, nat>)
  {
    forall p {:trigger Via(next, p)} :: p in next ==>
      && p in env.files
      && Via(next, p) < |Pieces(env.files[p])|
      && Pieces(env.files[p])[Via(next, p)].Input?
      && IncludePath(env, Pieces(env.files[p])[Via(next, p)].name) in next
  }

  /** No file on an include cycle ever finishes expanding, whatever the
      fuel: the recursion is unbounded. */
  lemma {:induction false} CycleNeverEnds(env: Env, next: map<string, nat>, p: string, fuel: nat)
    requires IncludeCycle(env, next) && p in next
    ensures p in env.files && ExpandText(env.files[p], env, fuel).None?
    decreases fuel
  {
    var k := Via(next, p);
    var ps := Pieces(env.files[p]);
    var d := ps[k];
    var q := IncludePath(env, d.name);
    assert d == Input(d.name) && q in next;
    assert Via(next, q) >= 0;  // brings in what the cycle says about q
    if fuel > 0 {
      CycleNeverEnds(env, next, q, fuel - 1);
    }
    PieceStuck(d.name, q, env, fuel);
    ExpandPiecesStuck(ps, k, env, fuel);
  }

  /** A directive naming an existing file is stuck when the file's own
      expansion, one level deeper, is, or when no fuel is left. */
  lemma PieceStuck(name: string, q: string, env: Env, fuel: nat)
    requires IncludePath(env, name) == q && q in env.files
    requires fuel == 0 || ExpandText(env.files[q], env, fuel - 1).None?
    ensures ExpandPiece(Input(name), env, fuel).None?
  {
  }

  /** A text with a directive naming a file on an include cycle never
      finishes expanding. */
  lemma IncludeOfCycleNeverEnds(s: string, k: nat, env: Env, next: map<string, nat>, fuel: nat)
    requires IncludeCycle(env, next)
    requires k < |Pieces(s)| && Pieces(s)[k].Input? && IncludePath(env, Pieces(s)[k].name) in next
    ensures ExpandText(s, env, fuel).None?
  {
    var d := Pieces(s)[k];
    var q := IncludePath(env, d.name);
    assert d == Input(d.name);
    assert Via(next, q) >= 0;  // brings in what the cycle says about q
    if fuel > 0 {
      CycleNeverEnds(env, next, q, fuel - 1);
    }
    PieceStuck(d.name, q, env, fuel);
    ExpandPiecesStuck(Pieces(s), k, env, fuel);
  }

  /** A file that includes itself anywhere in its text recurses without
      bound: no fuel is enough. */
  lemma SelfIncludeNeverEnds(path: string, k: nat, env: Env, fuel: nat)
    requires path in env.files
    requires k < |Pieces(env.files[path])| && Pieces(env.files[path])[k].Input?
    requires IncludePath(env, Pieces(env.files[path])[k].name) == path
    ensures ExpandText(env.files[path], env, fuel).None?
  {
    CycleNeverEnds(env, map[path := k], path, fuel);
  }

  /** The pattern never matches at a character other than a backslash. */
  lemma NoMatchWithoutBackslash(s: string)
    requires s != [] && s[0] != '\\'
    ensures forall k :: !DirectiveAt(s, 0, k)
  {
    if |s| >= |InputCommand| {
      assert s[..|InputCommand|][0] != InputCommand[0];
    }
  }

  /** Each character of t as its own piece. */
  function CharPieces(t: string): seq<Piece>
  {
    if t == [] then [] else [Char(t[0])] + CharPieces(t[1..])
  }

  /** Characters other than a backslash are kept one by one. */
  lemma {:induction false} PiecesPlainPrefix(t: string, rest: string)
    requires forall k :: 0 <= k < |t| ==> t[k] != '\\'
    ensures Pieces(t + rest) == CharPieces(t) + Pieces(rest)
  {
    if t == [] {
      assert t + rest == rest;
    } else {
      assert t + rest == [t[0]] + (t[1..] + rest);
      NoMatchWithoutBackslash(t + rest);
      PiecesCons(t[0], t[1..] + rest);
      PiecesPlainPrefix(t[1..], rest);
    }
  }

  /** Character pieces expand to their characters. */
  lemma {:induction false} ExpandCharPieces(t: string, env: Env, fuel: nat)
    ensures ExpandPieces(CharPieces(t), env, fuel) == Some(t)
  {
    if t != [] {
      ExpandCharPieces(t[1..], env, fuel);
      assert CharPieces(t)[1..] == CharPieces(t[1..]);
      assert [t[0]] + t[1..] == t;
    }
  }

  /** How `\\inp\\input{a}` splits: four characters and one directive. */
  lemma PiecesOfSplitDirective()
    ensures Pieces("\\inp" + InputCommand + "a}") == CharPieces("\\inp") + [Input("a")]
  {
    var u := "inp";
    var d := InputCommand + "a}";
    var s := "\\inp" + InputCommand + "a}";
    assert s == ['\\'] + (u + d);
    assert s[..|InputCommand|][4] != InputCommand[4];
    PiecesCons('\\', u + d);
    PiecesPlainPrefix(u, d);
    PiecesDirective("a", "");
    assert InputCommand + "a" + "}" + "" == d;
    assert "\\inp"[1..] == u;
  }

  /** Replacement text is not scanned again, so "no directive remains" fails:
      `\inp` followed by `\input{a}`, where a.tex holds `ut{x}`, expands to
      `\input{x}`. */
  lemma ExpansionCanFormDirective(env: Env, fuel: nat)
    requires fuel > 0
    requires IncludePath(env, "a") in env.files && env.files[IncludePath(env, "a")] == "ut{x}"
    ensures ExpandText("\\inp" + InputCommand + "a}", env, fuel) == Some(InputCommand + "x}")
    ensures DirectiveAt(InputCommand + "x}", 0, 8)
  {
    PiecesOfSplitDirective();
    ExpandCharPieces("\\inp", env, fuel);
    NoDirectiveUnchanged("ut{x}", env, fuel - 1);
    ExpandSinglePiece(Input("a"), env, fuel);
    ExpandPiecesAppend(CharPieces("\\inp"), [Input("a")], env, fuel);
    assert "\\inp" + "ut{x}" == InputCommand + "x}";
  }
}
