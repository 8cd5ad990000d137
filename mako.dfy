/** The pure helpers of the Mako benchmarking sidecar: escaping a benchmark tag
    into the characters Mako accepts, and the path of a mounted alerter token. */
module Mako {

  // ---------------------------------------------------------------------------
  // Tag escaping

  /** The (old, new) pairs of the tag escaper, in the order they are given: a
      plus becomes a dash; a tab and a space become an underscore. */
  const TagEscapes: seq<(char, char)> := [('+', '-'), ('\t', '_'), (' ', '_')]

  /** The replacement of `c` under `pairs`: the first pair whose old character
      is `c` wins; a character no pair names is kept. */
  function Lookup(pairs: seq<(char, char)>, c: char): (r: char)
    ensures (forall i :: 0 <= i < |pairs| ==> pairs[i].0 != c) ==> r == c
    ensures r == c || exists i :: 0 <= i < |pairs| && pairs[i] == (c, r)
  {
    if pairs == [] then c
    else if pairs[0].0 == c then pairs[0].1
    else Lookup(pairs[1..], c)
  }

  /** The escaper applied to one character. */
  function EscapeChar(c: char): (r: char)
    ensures r == if c == '+' then '-' else if c == '\t' || c == ' ' then '_' else c
  {
    assert TagEscapes[1..] == [('\t', '_'), (' ', '_')];
    assert TagEscapes[1..][1..] == [(' ', '_')];
    assert TagEscapes[1..][1..][1..] == [];
    assert Lookup(TagEscapes[1..][1..], c) == if c == ' ' then '_' else c;
    assert Lookup(TagEscapes[1..], c) == if c == '\t' || c == ' ' then '_' else c;
    Lookup(TagEscapes, c)
  }

  /** `EscapeTag`: every character of the tag is replaced by its escape. All
      old and new strings of the escaper are single ASCII characters, so the
      replacement works character by character and never overlaps. */
  function EscapeTag(tag: string): (r: string)
    ensures |r| == |tag|
    ensures forall i :: 0 <= i < |tag| ==> r[i] == EscapeChar(tag[i])
  {
    if tag == [] then [] else [EscapeChar(tag[0])] + EscapeTag(tag[1..])
  }

  /** Characters Mako does not accept in a tag. */
  predicate Rejected(c: char) {
    c == '+' || c == '\t' || c == ' '
  }

  /** Each plus becomes a dash, each tab or space an underscore, and every
      other character is kept at its position. */
  lemma EscapeTagPointwise(tag: string, i: nat)
    requires i < |tag|
    ensures tag[i] == '+' ==> EscapeTag(tag)[i] == '-'
    ensures tag[i] == '\t' || tag[i] == ' ' ==> EscapeTag(tag)[i] == '_'
    ensures !Rejected(tag[i]) ==> EscapeTag(tag)[i] == tag[i]
  {
  }

  /** An escaped tag holds no plus, tab or space. */
  lemma EscapeTagAccepted(tag: string)
    ensures forall i :: 0 <= i < |EscapeTag(tag)| ==> !Rejected(EscapeTag(tag)[i])
  {
  }

  /** A tag without rejected characters is left as it is. */
  lemma EscapeTagKeepsAccepted(tag: string)
    requires forall i :: 0 <= i < |tag| ==> !Rejected(tag[i])
    ensures EscapeTag(tag) == tag
  {
  }

  /** Escaping is idempotent: dashes and underscores are not rewritten. */
  lemma EscapeTagIdempotent(tag: string)
    ensures EscapeTag(EscapeTag(tag)) == EscapeTag(tag)
  {
    EscapeTagAccepted(tag);
    EscapeTagKeepsAccepted(EscapeTag(tag));
  }

  // ---------------------------------------------------------------------------
  // Token paths

  /** The folder the alerter's tokens are mounted in, and their file names. */
  const TokenFolder: string := "/var/secret"
  const GithubToken: string := "github-token"
  const SlackReadToken: string := "slack-read-token"
  const SlackWriteToken: string := "slack-write-token"

  /** The position of the first `c` in `s`. */
  function IndexOf(s: string, c: char): (k: nat)
    requires c in s
    ensures k < |s| && s[k] == c && c !in s[..k]
  {
    if s[0] == c then 0 else 1 + IndexOf(s[1..], c)
  }

  /** The pieces of `s` between slashes (an empty piece for each doubled,
      leading or trailing slash). */
  function Split(s: string): (r: seq<string>)
    ensures |r| > 0
    ensures forall i :: 0 <= i < |r| ==> '/' !in r[i]
    decreases |s|
  {
    if '/' !in s then [s]
    else
      var k := IndexOf(s, '/');
      [s[..k]] + Split(s[k + 1..])
  }

  /** Lexical resolution of path elements, as path cleaning does for a rooted
      path: empty and "." elements vanish, ".." removes the element before it
      (and is dropped at the root), any other element is kept. */
  function Resolve(stack: seq<string>, elems: seq<string>): (r: seq<string>)
    ensures (forall i :: 0 <= i < |stack| ==> Plain(stack[i]) && '/' !in stack[i]) &&
            (forall i :: 0 <= i < |elems| ==> '/' !in elems[i]) ==>
              forall i :: 0 <= i < |r| ==> Plain(r[i]) && '/' !in r[i]
    decreases |elems|
  {
    if elems == [] then stack
    else
      var e := elems[0];
      var next :=
        if e == "" || e == "." then stack
        else if e == ".." then (if stack == [] then [] else stack[..|stack| - 1])
        else stack + [e];
      Resolve(next, elems[1..])
  }

  /** The elements joined with single slashes. */
  function JoinElems(elems: seq<string>): (r: string)
    decreases |elems|
  {
    if elems == [] then ""
    else if |elems| == 1 then elems[0]
    else elems[0] + "/" + JoinElems(elems[1..])
  }

  /** A clean rooted path: the root alone, or a slash followed by elements
      that are all plain, so no doubled or trailing slash and no "." or ".."
      element. */
  predicate IsClean(p: string) {
    |p| > 0 && p[0] == '/' &&
    (p == "/" || forall i :: 0 <= i < |Split(p[1..])| ==> Plain(Split(p[1..])[i]))
  }

  /** The cleaned form of a rooted path: a slash followed by its resolved
      elements. */
  function CleanRooted(p: string): (r: string)
    requires |p| > 0 && p[0] == '/'
    ensures |r| > 0 && r[0] == '/'
  {
    "/" + JoinElems(Resolve([], Split(p[1..])))
  }

  /** `tokenPath`: the token folder and the token joined as a file path. An
      empty token is skipped by the join. The result is a clean rooted path,
      whatever the token holds (slashes, "." or ".." elements included). */
  function TokenPath(token: string): (r: string)
    ensures IsClean(r)
  {
    var joined := if token == "" then TokenFolder else TokenFolder + "/" + token;
    CleanRootedIsClean(joined);
    CleanRooted(joined)
  }

  /** The first slash after a slash-free piece is the one that follows it. */
  lemma {:induction false} IndexOfAfter(head: string, rest: string)
    requires '/' !in head
    ensures IndexOf(head + "/" + rest, '/') == |head|
  {
    var s := head + "/" + rest;
    if head != [] {
      assert s[0] == head[0];
      assert s[1..] == head[1..] + "/" + rest;
      IndexOfAfter(head[1..], rest);
    }
  }

  /** Splitting a slash-free piece followed by a slash and the rest. */
  lemma SplitCons(head: string, rest: string)
    requires '/' !in head
    ensures Split(head + "/" + rest) == [head] + Split(rest)
  {
    var s := head + "/" + rest;
    IndexOfAfter(head, rest);
    assert s[..|head|] == head;
    assert s[|head| + 1..] == rest;
  }

  /** A plain element: neither empty nor "." nor "..". */
  predicate Plain(e: string) {
    e != "" && e != "." && e != ".."
  }

  /** Plain elements are kept, in order. */
  lemma {:induction false} ResolvePlain(stack: seq<string>, elems: seq<string>)
    requires forall i :: 0 <= i < |elems| ==> Plain(elems[i])
    ensures Resolve(stack, elems) == stack + elems
    decreases |elems|
  {
    if elems != [] {
      assert Plain(elems[0]);
      ResolvePlain(stack + [elems[0]], elems[1..]);
      assert stack + [elems[0]] + elems[1..] == stack + elems;
    }
  }

  /** Splitting undoes joining, for slash-free elements. */
  lemma {:induction false} SplitJoin(elems: seq<string>)
    requires |elems| > 0
    requires forall i :: 0 <= i < |elems| ==> '/' !in elems[i]
    ensures Split(JoinElems(elems)) == elems
    decreases |elems|
  {
    if |elems| > 1 {
      SplitCons(elems[0], JoinElems(elems[1..]));
      SplitJoin(elems[1..]);
      assert [elems[0]] + elems[1..] == elems;
    }
  }

  /** A path made of plain slash-free elements is already clean. */
  lemma CleanIsFixed(elems: seq<string>)
    requires |elems| > 0
    requires forall i :: 0 <= i < |elems| ==> Plain(elems[i]) && '/' !in elems[i]
    ensures CleanRooted("/" + JoinElems(elems)) == "/" + JoinElems(elems)
  {
    var joined := JoinElems(elems);
    var p := "/" + joined;
    assert p[1..] == joined;
    SplitJoin(elems);
    assert Split(p[1..]) == elems;
    ResolvePlain([], elems);
    assert [] + elems == elems;
    assert Resolve([], Split(p[1..])) == elems;
  }

  /** A token that is a single plain file name lands directly inside the token
      folder. */
  lemma TokenPathOfFileName(token: string)
    requires Plain(token) && '/' !in token
    ensures TokenPath(token) == TokenFolder + "/" + token
  {
    var elems := ["var", "secret", token];
    assert elems[1..] == ["secret", token];
    assert elems[1..][1..] == [token];
    assert JoinElems(elems[1..]) == "secret" + "/" + token;
    assert JoinElems(elems) == "var" + "/" + ("secret" + "/" + token);
    assert TokenFolder + "/" + token == "/" + JoinElems(elems);
    CleanIsFixed(elems);
  }

  /** The GitHub token's path, as the alerter is set up with it. */
  lemma GithubTokenPath()
    ensures TokenPath(GithubToken) == "/var/secret/github-token"
  {
    GithubTokenIsFileName();
    TokenPathOfFileName(GithubToken);
    assert TokenFolder + "/" + GithubToken == "/var/secret/github-token";
  }

  lemma GithubTokenIsFileName()
    ensures Plain(GithubToken) && '/' !in GithubToken
  {
  }

  /** An empty token names the folder itself. */
  lemma EmptyTokenPath()
    ensures TokenPath("") == TokenFolder
  {
    var elems := ["var", "secret"];
    assert elems[1..] == ["secret"];
    assert JoinElems(elems) == "var" + "/" + "secret";
    assert TokenFolder == "/" + JoinElems(elems);
    CleanIsFixed(elems);
  }

  /** Joining undoes splitting. */
  lemma {:induction false} JoinSplit(s: string)
    ensures JoinElems(Split(s)) == s
    decreases |s|
  {
    if '/' in s {
      var k := IndexOf(s, '/');
      var rest := Split(s[k + 1..]);
      assert Split(s) == [s[..k]] + rest;
      assert Split(s)[1..] == rest;
      JoinSplit(s[k + 1..]);
      assert s == s[..k] + "/" + s[k + 1..];
    }
  }

  /** A clean path is left as it is by cleaning. */
  lemma CleanKeepsClean(p: string)
    requires IsClean(p)
    ensures CleanRooted(p) == p
  {
    var elems := Split(p[1..]);
    if p != "/" {
      ResolvePlain([], elems);
      assert [] + elems == elems;
      JoinSplit(p[1..]);
      assert p == "/" + p[1..];
    } else {
      assert p[1..] == "";
      assert elems == [""];
      assert elems[1..] == [];
      assert Resolve([], elems) == [];
    }
  }

  /** Cleaning yields a clean path. */
  lemma CleanRootedIsClean(p: string)
    requires |p| > 0 && p[0] == '/'
    ensures IsClean(CleanRooted(p))
  {
    var elems := Resolve([], Split(p[1..]));
    var r := "/" + JoinElems(elems);
    if elems != [] {
      assert r[1..] == JoinElems(elems);
      SplitJoin(elems);
    }
  }

  /** Cleaning is idempotent, so a token path is its own cleaned form. */
  lemma CleanIdempotent(p: string)
    requires |p| > 0 && p[0] == '/'
    ensures CleanRooted(CleanRooted(p)) == CleanRooted(p)
  {
    CleanRootedIsClean(p);
    CleanKeepsClean(CleanRooted(p));
  }
}
