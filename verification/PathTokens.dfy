/** The path tokenizer of `node::search_absolute` (kernel/fs/vfs.cpp) over `lib::string`. */
module PathTokens {

  /** `string::find_first`; the length of the string stands for `npos`. */
  function FindFirst(s: string, c: char, start: nat): (r: nat)
    requires start <= |s|
    ensures start <= r <= |s| && (forall i :: start <= i < r ==> s[i] != c) && (r < |s| ==> s[r] == c)
    decreases |s| - start
  {
    if start == |s| || s[start] == c then start else FindFirst(s, c, start + 1)
  }

  /** The tokens that the loop pushes from `start` on. */
  function TokensFrom(s: string, start: nat): seq<string>
    requires start <= |s|
    decreases |s| - start
  {
    var end := FindFirst(s, '/', start);
    Token(s, start, end) + if end == |s| then [] else TokensFrom(s, end + 1)
  }

  lemma Unfold(s: string, start: nat)
    requires start <= |s|
    ensures var end := FindFirst(s, '/', start);
      TokensFrom(s, start) == Token(s, start, end) + if end == |s| then [] else TokensFrom(s, end + 1)
  {
  }

  /** A token is pushed unless it is empty. */
  function Token(s: string, start: nat, end: nat): seq<string>
    requires start <= end <= |s|
  {
    if start < end then [s[start..end]] else []
  }

  /** The tokens of a path. */
  function Tokens(s: string): seq<string> {
    TokensFrom(s, 0)
  }

  // ---------------------------------------------------------------------------------------
  // The tokens are the maximal slash-free runs

  /** A stretch of the path: from `from` up to but not including `to`. */
  datatype Span = Span(from: nat, to: nat)

  /** A maximal slash-free run: not empty, no slash inside, and a slash or an end of the path on both sides. */
  predicate IsRun(s: string, r: Span) {
    && r.from < r.to <= |s| && (forall i :: r.from <= i < r.to ==> s[i] != '/')
    && (r.from == 0 || s[r.from - 1] == '/') && (r.to == |s| || s[r.to] == '/')
  }

  /** `l` lists all runs of the path, in order. */
  ghost predicate ListsRuns(s: string, l: seq<Span>) {
    && (forall i :: 0 <= i < |l| ==> IsRun(s, l[i]))
    && (forall i, j :: 0 <= i < j < |l| ==> l[i].to < l[j].from)
    && (forall r :: IsRun(s, r) ==> r in l)
  }

  /** The token texts are those of the spans. */
  predicate Reads(s: string, l: seq<Span>, tokens: seq<string>) {
    |tokens| == |l| && forall i :: 0 <= i < |l| ==> l[i].from <= l[i].to <= |s| && tokens[i] == s[l[i].from..l[i].to]
  }

  function Spans(s: string, start: nat): seq<Span>
    requires start <= |s|
    decreases |s| - start
  {
    var end := FindFirst(s, '/', start);
    Here(start, end) + if end == |s| then [] else Spans(s, end + 1)
  }

  function Here(start: nat, end: nat): seq<Span> {
    if start < end then [Span(start, end)] else []
  }

  lemma UnfoldSpans(s: string, start: nat)
    requires start <= |s|
    ensures var end := FindFirst(s, '/', start);
      Spans(s, start) == Here(start, end) + if end == |s| then [] else Spans(s, end + 1)
  {
  }

  lemma NextRun(s: string, start: nat)
    requires start <= |s| && (start == 0 || s[start - 1] == '/')
    ensures var end := FindFirst(s, '/', start); start < end ==> IsRun(s, Span(start, end))
  {
  }

  lemma {:induction false} SpansAreRuns(s: string, start: nat)
    requires start <= |s| && (start == 0 || s[start - 1] == '/')
    ensures forall i :: 0 <= i < |Spans(s, start)| ==> IsRun(s, Spans(s, start)[i]) && start <= Spans(s, start)[i].from
    decreases |s| - start
  {
    hide IsRun, FindFirst, Spans;
    UnfoldSpans(s, start);
    var end := FindFirst(s, '/', start);
    NextRun(s, start);
    if end < |s| {
      SpansAreRuns(s, end + 1);
    }
  }

  lemma {:induction false} SpansInOrder(s: string, start: nat)
    requires start <= |s| && (start == 0 || s[start - 1] == '/')
    ensures forall i, j :: 0 <= i < j < |Spans(s, start)| ==> Spans(s, start)[i].to < Spans(s, start)[j].from
    decreases |s| - start
  {
    hide IsRun, FindFirst, Spans;
    UnfoldSpans(s, start);
    var end := FindFirst(s, '/', start);
    if end < |s| {
      SpansAreRuns(s, end + 1);
      SpansInOrder(s, end + 1);
    }
  }

  lemma {:induction false} RunsAreFound(s: string, start: nat, r: Span)
    requires start <= r.from <= |s| && IsRun(s, r)
    ensures r in Spans(s, start)
    decreases |s| - start
  {
    hide IsRun, FindFirst, Spans;
    UnfoldSpans(s, start);
    var end := FindFirst(s, '/', start);
    if r.from <= end {
      FirstRun(s, start, r);
      assert Spans(s, start)[0] == r;
    } else {
      RunsAreFound(s, end + 1, r);
    }
  }

  lemma FirstRun(s: string, start: nat, r: Span)
    requires start <= |s| && IsRun(s, r) && start <= r.from <= FindFirst(s, '/', start)
    ensures r == Span(start, FindFirst(s, '/', start)) && r.from < r.to <= |s|
  {
  }

  lemma {:induction false} SpansRead(s: string, start: nat)
    requires start <= |s|
    ensures Reads(s, Spans(s, start), TokensFrom(s, start))
    decreases |s| - start
  {
    hide FindFirst, Spans, TokensFrom;
    UnfoldSpans(s, start);
    Unfold(s, start);
    var end := FindFirst(s, '/', start);
    if end < |s| {
      SpansRead(s, end + 1);
    }
  }

  /** The tokens are the texts of exactly the maximal slash-free runs of the path, in order. */
  lemma TokensAreTheRuns(s: string)
    ensures ListsRuns(s, Spans(s, 0)) && Reads(s, Spans(s, 0), Tokens(s))
  {
    hide Spans, TokensFrom, Reads;
    SpansAreRuns(s, 0);
    SpansInOrder(s, 0);
    SpansRead(s, 0);
    forall r | IsRun(s, r)
      ensures r in Spans(s, 0)
    {
      RunsAreFound(s, 0, r);
    }
  }

  /** Only one list is that of the runs, so the tokens are determined. */
  lemma RunsUnique(s: string, l: seq<Span>)
    requires ListsRuns(s, l)
    ensures l == Spans(s, 0)
  {
    TokensAreTheRuns(s);
    Sorted(l, Spans(s, 0));
  }

  /** Ordered lists with the same members are the same. */
  lemma {:induction false} Sorted(l: seq<Span>, k: seq<Span>)
    requires forall i :: 0 <= i < |l| ==> l[i].from < l[i].to
    requires forall i, j :: 0 <= i < j < |l| ==> l[i].to < l[j].from
    requires forall i, j :: 0 <= i < j < |k| ==> k[i].to < k[j].from
    requires forall r :: r in l <==> r in k
    ensures l == k
  {
    if k != [] {
      assert k[0] in l;
    }
    if l != [] {
      assert l[0] in k;
      var a, b := l[0], k[0];
      assert a in k && b in l;
      assert a == b;
      assert l == [a] + l[1..] && k == [a] + k[1..];
      forall r ensures r in l[1..] <==> r in k[1..] {
        assert r in l[1..] ==> r != a && r in l;
        assert r in k[1..] ==> r != a && r in k;
      }
      Sorted(l[1..], k[1..]);
    }
  }

  // ---------------------------------------------------------------------------------------
  // The loop

  method Find(s: string, c: char, start: nat) returns (r: nat)
    requires start <= |s|
    ensures r == FindFirst(s, c, start)
  {
    r := start;
    while r < |s|
      invariant start <= r <= |s| && FindFirst(s, c, start) == FindFirst(s, c, r)
    {
      if s[r] == c {
        return;
      }
      r := r + 1;
    }
  }

  /** One turn of the loop: the token at `start` goes from what is left to what is pushed. */
  lemma Turn(s: string, start: nat, ret: seq<string>)
    requires start <= |s|
    ensures var end := FindFirst(s, '/', start);
      && var pushed := if s[start..end] == [] then ret else ret + [s[start..end]];
      ret + TokensFrom(s, start) == pushed + if end == |s| then [] else TokensFrom(s, end + 1)
  {
    hide FindFirst, TokensFrom;
    Unfold(s, start);
  }

  method Tokenize(path: string) returns (ret: seq<string>)
    ensures ret == Tokens(path)
  {
    hide FindFirst, TokensFrom, Token;
    var start := 0;
    var end := Find(path, '/', 0);
    ret := [];
    assert Tokens(path) == ret + TokensFrom(path, 0);
    while end != |path|
      invariant start <= |path| && end == FindFirst(path, '/', start)
      invariant Tokens(path) == ret + TokensFrom(path, start)
      decreases |path| - start
    {
      Turn(path, start, ret);
      var token := path[start..end];
      if token != [] {
        ret := ret + [token];
      }
      start := end + 1;
      end := Find(path, '/', start);
    }
    Turn(path, start, ret);
    assert path[start..] == path[start..end];
    var token := path[start..];
    if token != [] {
      ret := ret + [token];
    }
  }

  // ---------------------------------------------------------------------------------------
  // Joining

  /** Names that a path component can have. */
  predicate Names(l: seq<string>) {
    forall i :: 0 <= i < |l| ==> l[i] != [] && '/' !in l[i]
  }

  /** The names with a slash in front of each. */
  function Join(l: seq<string>): string {
    if l == [] then [] else "/" + l[0] + Join(l[1..])
  }

  lemma {:induction false} FindShift(s: string, n: nat, start: nat)
    requires n + start <= |s|
    ensures FindFirst(s[n..], '/', start) + n == FindFirst(s, '/', start + n)
    decreases |s| - start
  {
    if start + n < |s| && s[start + n] != '/' {
      FindShift(s, n, start + 1);
    }
  }

  lemma TokenShift(s: string, n: nat, start: nat, end: nat)
    requires start <= end && end + n <= |s|
    ensures Token(s[n..], start, end) == Token(s, start + n, end + n)
  {
    assert s[n..][start..end] == s[start + n..end + n];
  }

  /** The tokens from a position on are the tokens of the rest of the path. */
  lemma {:induction false} TokensShift(s: string, n: nat, start: nat)
    requires n + start <= |s|
    ensures TokensFrom(s[n..], start) == TokensFrom(s, start + n)
    decreases |s| - start
  {
    hide FindFirst, Token, TokensFrom;
    FindShift(s, n, start);
    var t, end := s[n..], FindFirst(s[n..], '/', start);
    TokenShift(s, n, start, end);
    Unfold(t, start);
    Unfold(s, start + n);
    if end < |t| {
      TokensShift(s, n, end + 1);
    }
  }

  /** A leading slash, which `search_absolute` cuts off, makes no difference. */
  lemma LeadingSlash(s: string)
    ensures Tokens("/" + s) == Tokens(s)
  {
    hide FindFirst, TokensFrom;
    var t := "/" + s;
    Unfold(t, 0);
    assert t[0] == '/' && t[1..] == s;
    TokensShift(t, 1, 0);
  }

  /** The tokens of a name followed by the end or by a slash and more. */
  lemma NameFirst(name: string, rest: string)
    requires name != [] && '/' !in name && (rest == [] || rest[0] == '/')
    ensures Tokens(name + rest) == [name] + Tokens(rest)
  {
    hide FindFirst, TokensFrom;
    var s := name + rest;
    Unfold(s, 0);
    Unfold("", 0);
    assert forall i :: 0 <= i < |name| ==> s[i] == name[i];
    assert rest != [] ==> s[|name|] == '/';
    assert FindFirst(s, '/', 0) == |name|;
    assert s[0..|name|] == name;
    if rest != [] {
      TokensShift(s, |name| + 1, 0);
      assert s[|name| + 1..] == rest[1..];
      assert rest == "/" + rest[1..];
      LeadingSlash(rest[1..]);
    }
  }

  /** Tokenizing the join of any list of names gives the list back. */
  lemma {:induction false} JoinThenTokens(l: seq<string>)
    requires Names(l)
    ensures Tokens(Join(l)) == l
  {
    hide FindFirst, TokensFrom;
    Unfold("", 0);
    if l != [] {
      JoinThenTokens(l[1..]);
      NameFirst(l[0], Join(l[1..]));
      LeadingSlash(l[0] + Join(l[1..]));
      assert "/" + l[0] + Join(l[1..]) == "/" + (l[0] + Join(l[1..]));
    }
  }

  lemma {:induction false} TokensAreNames(s: string, start: nat)
    requires start <= |s|
    ensures Names(TokensFrom(s, start))
    decreases |s| - start
  {
    hide FindFirst, TokensFrom;
    var end := FindFirst(s, '/', start);
    Unfold(s, start);
    if end < |s| {
      TokensAreNames(s, end + 1);
    }
  }

  /** Joining the tokens normalises a path: the result tokenizes to the same names. */
  lemma TokensThenJoin(s: string)
    ensures Tokens(Join(Tokens(s))) == Tokens(s)
  {
    TokensAreNames(s, 0);
    JoinThenTokens(Tokens(s));
  }
}
