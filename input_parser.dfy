/** Command-line token lookup.  The parser keeps the program arguments in
    order and answers two questions about them: does a token occur, and which
    token follows its first occurrence.  Both are a linear search from the
    front, so only the first occurrence of a repeated token matters. */
module InputParser {

  type Token = string

  datatype Parser = Parser(tokens: seq<Token>) {

    /** Index of the first token equal to `t`, or `|tokens|` when none is
        (the past-the-end position a forward search stops at). */
    function Find(t: Token): (i: nat)
      ensures i <= |tokens|
      ensures i < |tokens| ==> tokens[i] == t
      ensures forall j :: 0 <= j < i ==> tokens[j] != t
    {
      FindFrom(t, 0)
    }

    /** True exactly when some stored token equals `t`. */
    function TokenExists(t: Token): (r: bool)
      ensures r <==> t in tokens
    {
      Find(t) < |tokens|
    }

    /** The token right after the first occurrence of `t`; the empty string
        when `t` is absent or its first occurrence is the last token. */
    function GetTokenValue(t: Token): (r: Token)
      ensures t !in tokens ==> r == ""
      ensures r != "" ==> exists i :: 0 <= i < |tokens| - 1 && tokens[i] == t && r == tokens[i + 1]
    {
      var i := Find(t);
      if i < |tokens| && i + 1 < |tokens| then tokens[i + 1] else ""
    }

    /** Forward search starting at position `k`. */
    function FindFrom(t: Token, k: nat): (i: nat)
      requires k <= |tokens|
      requires forall j :: 0 <= j < k ==> tokens[j] != t
      ensures k <= i <= |tokens|
      ensures i < |tokens| ==> tokens[i] == t
      ensures forall j :: 0 <= j < i ==> tokens[j] != t
      decreases |tokens| - k
    {
      if k == |tokens| then k
      else if tokens[k] == t then k
      else FindFrom(t, k + 1)
    }
  }

  /** The parser built from `argc` and `argv` stores `argv[0..argc)` in order. */
  function FromArgs(argc: nat, argv: seq<Token>): (p: Parser)
    requires argc <= |argv|
    ensures |p.tokens| == argc
    ensures forall i :: 0 <= i < argc ==> p.tokens[i] == argv[i]
  {
    Parser(argv[..argc])
  }

  /** The value is the token after the FIRST occurrence, whatever follows a
      later occurrence. */
  lemma ValueFollowsFirstOccurrence(p: Parser, t: Token, i: nat)
    requires i + 1 < |p.tokens| && p.tokens[i] == t
    requires forall j :: 0 <= j < i ==> p.tokens[j] != t
    ensures p.Find(t) == i
    ensures p.GetTokenValue(t) == p.tokens[i + 1]
  {
  }

  /** A token whose only occurrence is the last argument has no value. */
  lemma LastTokenHasNoValue(p: Parser, t: Token)
    requires |p.tokens| > 0 && p.tokens[|p.tokens| - 1] == t
    requires forall j :: 0 <= j < |p.tokens| - 1 ==> p.tokens[j] != t
    ensures p.TokenExists(t)
    ensures p.GetTokenValue(t) == ""
  {
  }

  /** A few concrete command lines, one of them repeating `-i`. */
  lemma ExampleCommandLine()
    ensures FromArgs(4, ["-i", "a.ttf", "-o", "b.bmp"]).GetTokenValue("-o") == "b.bmp"
    ensures Parser(["-i", "a.ttf", "-i", "c.ttf"]).GetTokenValue("-i") == "a.ttf"
    ensures Parser(["x", "-o"]).GetTokenValue("-o") == ""
    ensures !Parser(["x", "-o"]).TokenExists("-i")
  {
    var p := Parser(["-i", "a.ttf", "-i", "c.ttf"]);
    ValueFollowsFirstOccurrence(p, "-i", 0);
    var q := Parser(["x", "-o"]);
    LastTokenHasNoValue(q, "-o");
    var r := FromArgs(4, ["-i", "a.ttf", "-o", "b.bmp"]);
    ValueFollowsFirstOccurrence(r, "-o", 2);
  }
}
