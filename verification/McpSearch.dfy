/** The bounded search: three passes append to one list and leave early once it is full. */
module McpSearch {
  import opened Common

  datatype Source = Source(path: string, readable: bool, lines: seq<string>, hash: string, role: string)

  datatype Link = Link(source: string, line: nat, target: string, status: string, resolution: string)

  datatype Hit =
    | Exact(source: string, line: nat, text: string, hash: string, role: string)
    | PathSource(source: string, hash: string, role: string)
    | PathReference(link: Link)
    | FullText(source: string, line: nat, lineEnd: nat, text: string, rank: int)

  datatype Projection = Projection(sources: seq<Source>, links: seq<Link>)

  datatype Mode = All | ExactOnly | PathOnly | FullTextOnly

  function HashPrefix(hash: string): string {
    if hash == "" then "none" else if |hash| <= 12 then hash else hash[..12]
  }

  function ExactHit(s: Source, number: nat): Hit
    requires number < |s.lines|
  {
    Exact(s.path, number + 1, s.lines[number], HashPrefix(s.hash), s.role)
  }

  // The simple form: everything that matches, in order

  function LineHits(s: Source, query: string, n: nat): seq<Hit>
    requires n <= |s.lines|
  {
    if n == 0 then [] else LineHits(s, query, n - 1) + if Occurs(query, s.lines[n - 1]) then [ExactHit(s, n - 1)] else []
  }

  function ExactHits(sources: seq<Source>, query: string): seq<Hit> {
    if sources == [] then []
    else
      var last := sources[|sources| - 1];
      ExactHits(sources[..|sources| - 1], query) + if last.readable then LineHits(last, query, |last.lines|) else []
  }

  function PathSourceHits(sources: seq<Source>, query: string): seq<Hit> {
    if sources == [] then []
    else
      var last := sources[|sources| - 1];
      PathSourceHits(sources[..|sources| - 1], query)
      + if Occurs(query, last.path) then [PathSource(last.path, HashPrefix(last.hash), last.role)] else []
  }

  function PathReferenceHits(links: seq<Link>, query: string): seq<Hit> {
    if links == [] then []
    else
      var last := links[|links| - 1];
      PathReferenceHits(links[..|links| - 1], query)
      + if Occurs(query, last.target) || Occurs(query, last.source) then [PathReference(last)] else []
  }

  function AllHits(p: Projection, query: string, mode: Mode, fullText: seq<Hit>): seq<Hit> {
    (if mode in {All, ExactOnly} then ExactHits(p.sources, query) else [])
    + (if mode in {All, PathOnly} then PathSourceHits(p.sources, query) + PathReferenceHits(p.links, query) else [])
    + (if mode in {All, FullTextOnly} then fullText else [])
  }

  function Take(hits: seq<Hit>, limit: nat): seq<Hit> {
    if |hits| <= limit then hits else hits[..limit]
  }

  // The early exits

  method AppendResult(results: seq<Hit>, hit: Hit, limit: nat) returns (room: bool, results': seq<Hit>)
    requires |results| <= limit
    ensures results' == Take(results + [hit], limit)
    ensures !room ==> results' == results && |results| == limit
  {
    if |results| >= limit {
      return false, results;
    }
    return true, results + [hit];
  }

  lemma TakeOnceFull(a: seq<Hit>, b: seq<Hit>, limit: nat)
    requires |Take(a, limit)| == limit
    ensures Take(a + b, limit) == Take(a, limit)
  {
  }

  lemma TakeStep(a: seq<Hit>, hit: Hit, limit: nat)
    ensures Take(Take(a, limit) + [hit], limit) == Take(a + [hit], limit)
  {
  }

  lemma {:induction false} LineHitsExtend(s: Source, query: string, n: nat, m: nat) returns (rest: seq<Hit>)
    requires n <= m <= |s.lines|
    ensures LineHits(s, query, m) == LineHits(s, query, n) + rest
  {
    rest := [];
    if n < m {
      rest := LineHitsExtend(s, query, n, m - 1);
      rest := rest + if Occurs(query, s.lines[m - 1]) then [ExactHit(s, m - 1)] else [];
    }
  }

  lemma {:induction false} ExactHitsExtend(sources: seq<Source>, query: string, n: nat) returns (rest: seq<Hit>)
    requires n <= |sources|
    ensures ExactHits(sources, query) == ExactHits(sources[..n], query) + rest
  {
    rest := [];
    if n == |sources| {
      assert sources[..n] == sources;
    } else {
      var front, last := sources[..|sources| - 1], sources[|sources| - 1];
      rest := ExactHitsExtend(front, query, n);
      assert front[..n] == sources[..n];
      rest := rest + if last.readable then LineHits(last, query, |last.lines|) else [];
    }
  }

  lemma {:induction false} PathSourceHitsExtend(sources: seq<Source>, query: string, n: nat) returns (rest: seq<Hit>)
    requires n <= |sources|
    ensures PathSourceHits(sources, query) == PathSourceHits(sources[..n], query) + rest
  {
    rest := [];
    if n == |sources| {
      assert sources[..n] == sources;
    } else {
      var front, last := sources[..|sources| - 1], sources[|sources| - 1];
      rest := PathSourceHitsExtend(front, query, n);
      assert front[..n] == sources[..n];
      rest := rest + if Occurs(query, last.path) then [PathSource(last.path, HashPrefix(last.hash), last.role)] else [];
    }
  }

  lemma {:induction false} PathReferenceHitsExtend(links: seq<Link>, query: string, n: nat) returns (rest: seq<Hit>)
    requires n <= |links|
    ensures PathReferenceHits(links, query) == PathReferenceHits(links[..n], query) + rest
  {
    rest := [];
    if n == |links| {
      assert links[..n] == links;
    } else {
      var front, last := links[..|links| - 1], links[|links| - 1];
      rest := PathReferenceHitsExtend(front, query, n);
      assert front[..n] == links[..n];
      rest := rest + if Occurs(query, last.target) || Occurs(query, last.source) then [PathReference(last)] else [];
    }
  }

  /** A pass that left early has already what the whole pass would give. */
  lemma LeftEarly(base: seq<Hit>, done: seq<Hit>, rest: seq<Hit>, limit: nat)
    requires |Take(base + done, limit)| == limit
    ensures Take(base + (done + rest), limit) == Take(base + done, limit)
  {
    assert base + (done + rest) == (base + done) + rest;
    TakeOnceFull(base + done, rest, limit);
  }

  lemma OneMore(base: seq<Hit>, done: seq<Hit>, hit: Hit, limit: nat)
    ensures Take(Take(base + done, limit) + [hit], limit) == Take(base + (done + [hit]), limit)
  {
    assert base + (done + [hit]) == (base + done) + [hit];
    TakeStep(base + done, hit, limit);
  }

  method AppendLineHits(results: seq<Hit>, s: Source, query: string, limit: nat, ghost base: seq<Hit>) returns (room: bool, results': seq<Hit>)
    requires results == Take(base, limit)
    ensures results' == Take(base + LineHits(s, query, |s.lines|), limit)
    ensures !room ==> |results'| == limit
  {
    results' := results;
    assert base + [] == base;
    for k := 0 to |s.lines|
      invariant results' == Take(base + LineHits(s, query, k), limit)
    {
      ghost var done := LineHits(s, query, k);
      if !Occurs(query, s.lines[k]) {
        assert LineHits(s, query, k + 1) == done;
        continue;
      }
      OneMore(base, done, ExactHit(s, k), limit);
      room, results' := AppendResult(results', ExactHit(s, k), limit);
      if !room {
        ghost var rest := LineHitsExtend(s, query, k, |s.lines|);
        LeftEarly(base, done, rest, limit);
        return;
      }
    }
    room := true;
  }

  method AppendExactSearchResults(results: seq<Hit>, p: Projection, query: string, limit: nat, ghost base: seq<Hit>) returns (results': seq<Hit>)
    requires results == Take(base, limit)
    ensures results' == Take(base + ExactHits(p.sources, query), limit)
  {
    results' := results;
    assert base + [] == base;
    for i := 0 to |p.sources|
      invariant results' == Take(base + ExactHits(p.sources[..i], query), limit)
    {
      var s := p.sources[i];
      ghost var done := ExactHits(p.sources[..i], query);
      assert p.sources[..i + 1][..i] == p.sources[..i];
      if !s.readable {
        assert done + [] == done;
        continue;
      }
      var room;
      room, results' := AppendLineHits(results', s, query, limit, base + done);
      assert base + (done + LineHits(s, query, |s.lines|)) == base + done + LineHits(s, query, |s.lines|);
      if !room {
        ghost var rest := ExactHitsExtend(p.sources, query, i + 1);
        LeftEarly(base, ExactHits(p.sources[..i + 1], query), rest, limit);
        return;
      }
    }
    assert p.sources[..|p.sources|] == p.sources;
  }

  method AppendPathSources(results: seq<Hit>, sources: seq<Source>, query: string, limit: nat, ghost base: seq<Hit>) returns (room: bool, results': seq<Hit>)
    requires results == Take(base, limit)
    ensures results' == Take(base + PathSourceHits(sources, query), limit)
    ensures !room ==> |results'| == limit
  {
    results' := results;
    assert base + [] == base;
    for i := 0 to |sources|
      invariant results' == Take(base + PathSourceHits(sources[..i], query), limit)
    {
      ghost var done := PathSourceHits(sources[..i], query);
      assert sources[..i + 1][..i] == sources[..i];
      if !Occurs(query, sources[i].path) {
        assert done + [] == done;
        continue;
      }
      var hit := PathSource(sources[i].path, HashPrefix(sources[i].hash), sources[i].role);
      OneMore(base, done, hit, limit);
      room, results' := AppendResult(results', hit, limit);
      if !room {
        ghost var rest := PathSourceHitsExtend(sources, query, i);
        LeftEarly(base, done, rest, limit);
        return;
      }
    }
    assert sources[..|sources|] == sources;
    room := true;
  }

  method AppendPathReferences(results: seq<Hit>, links: seq<Link>, query: string, limit: nat, ghost base: seq<Hit>) returns (results': seq<Hit>)
    requires results == Take(base, limit)
    ensures results' == Take(base + PathReferenceHits(links, query), limit)
  {
    results' := results;
    assert base + [] == base;
    for i := 0 to |links|
      invariant results' == Take(base + PathReferenceHits(links[..i], query), limit)
    {
      ghost var done := PathReferenceHits(links[..i], query);
      assert links[..i + 1][..i] == links[..i];
      if !Occurs(query, links[i].target) && !Occurs(query, links[i].source) {
        assert done + [] == done;
        continue;
      }
      OneMore(base, done, PathReference(links[i]), limit);
      var room;
      room, results' := AppendResult(results', PathReference(links[i]), limit);
      if !room {
        ghost var rest := PathReferenceHitsExtend(links, query, i);
        LeftEarly(base, done, rest, limit);
        return;
      }
    }
    assert links[..|links|] == links;
  }

  method AppendPathSearchResults(results: seq<Hit>, p: Projection, query: string, limit: nat, ghost base: seq<Hit>) returns (results': seq<Hit>)
    requires results == Take(base, limit)
    ensures results' == Take(base + (PathSourceHits(p.sources, query) + PathReferenceHits(p.links, query)), limit)
  {
    var room;
    room, results' := AppendPathSources(results, p.sources, query, limit, base);
    if !room {
      LeftEarly(base, PathSourceHits(p.sources, query), PathReferenceHits(p.links, query), limit);
      return;
    }
    results' := AppendPathReferences(results', p.links, query, limit, base + PathSourceHits(p.sources, query));
    assert base + (PathSourceHits(p.sources, query) + PathReferenceHits(p.links, query))
        == base + PathSourceHits(p.sources, query) + PathReferenceHits(p.links, query);
  }

  method AppendFullText(results: seq<Hit>, fullText: seq<Hit>, limit: nat, ghost base: seq<Hit>) returns (results': seq<Hit>)
    requires results == Take(base, limit)
    ensures results' == Take(base + fullText, limit)
  {
    results' := results;
    assert base + [] == base;
    for i := 0 to |fullText|
      invariant results' == Take(base + fullText[..i], limit)
    {
      assert fullText[..i + 1] == fullText[..i] + [fullText[i]];
      OneMore(base, fullText[..i], fullText[i], limit);
      var _, appended := AppendResult(results', fullText[i], limit);
      results' := appended;
    }
    assert fullText[..|fullText|] == fullText;
  }

  method CollectResults(p: Projection, query: string, mode: Mode, limit: nat, fullText: seq<Hit>) returns (results: seq<Hit>)
    ensures results == Take(AllHits(p, query, mode, fullText), limit)
  {
    results := [];
    ghost var exact := if mode in {All, ExactOnly} then ExactHits(p.sources, query) else [];
    ghost var paths := if mode in {All, PathOnly} then PathSourceHits(p.sources, query) + PathReferenceHits(p.links, query) else [];
    if mode in {All, ExactOnly} {
      results := AppendExactSearchResults(results, p, query, limit, []);
      assert [] + exact == exact;
    }
    assert results == Take(exact, limit);
    if mode in {All, PathOnly} {
      results := AppendPathSearchResults(results, p, query, limit, exact);
    } else {
      assert exact + paths == exact;
    }
    ghost var base := exact + paths;
    assert results == Take(base, limit);
    if mode in {All, FullTextOnly} {
      results := AppendFullText(results, fullText, limit, base);
    } else {
      assert base + [] == base;
    }
  }

  // What the simple form is, told without it

  /** The first twelve characters of a hash, or `none` without one. */
  ghost predicate IsHashPrefix(p: string, hash: string) {
    if hash == "" then p == "none" else |p| <= 12 && StartsWith(hash, p) && (|p| == 12 || p == hash)
  }

  /** Line `k` of source `i` has the query in it and the hit is about it; lines are counted from one. */
  ghost predicate IsLineHit(hit: Hit, i: nat, k: nat, sources: seq<Source>, query: string) {
    && IsMatch(i, k, sources, query)
    && hit.Exact? && hit.source == sources[i].path && hit.line == k + 1 && hit.text == sources[i].lines[k]
    && IsHashPrefix(hit.hash, sources[i].hash) && hit.role == sources[i].role
  }

  ghost predicate Earlier(a: (nat, nat), b: (nat, nat)) {
    a.0 < b.0 || (a.0 == b.0 && a.1 < b.1)
  }

  /** The hits are about the positions `at`, which are in reading order. */
  ghost predicate LineHitsAt(at: seq<(nat, nat)>, hits: seq<Hit>, sources: seq<Source>, query: string) {
    && |at| == |hits|
    && (forall n :: 0 <= n < |at| ==> IsLineHit(hits[n], at[n].0, at[n].1, sources, query))
    && (forall m, n :: 0 <= m < n < |at| ==> Earlier(at[m], at[n]))
  }

  /** Line `b` of source `a` can be read and has the query in it. */
  ghost predicate IsMatch(a: nat, b: nat, sources: seq<Source>, query: string) {
    a < |sources| && sources[a].readable && b < |sources[a].lines| && IsPart(query, sources[a].lines[b])
  }

  /** The positions are the matching lines before line `k` of source `i`. */
  ghost predicate MatchesBefore(at: seq<(nat, nat)>, i: nat, k: nat, sources: seq<Source>, query: string) {
    && (forall n :: 0 <= n < |at| ==> Earlier(at[n], (i, k)))
    && (forall a: nat, b: nat :: Earlier((a, b), (i, k)) && IsMatch(a, b, sources, query) ==> (a, b) in at)
  }

  lemma HashPrefixIs(hash: string)
    ensures IsHashPrefix(HashPrefix(hash), hash)
  {
  }

  lemma OneMoreLine(at: seq<(nat, nat)>, hits: seq<Hit>, hit: Hit, i: nat, k: nat, sources: seq<Source>, query: string)
    requires LineHitsAt(at, hits, sources, query) && IsLineHit(hit, i, k, sources, query)
    requires forall n :: 0 <= n < |at| ==> Earlier(at[n], (i, k))
    ensures LineHitsAt(at + [(i, k)], hits + [hit], sources, query)
  {
    var at', hits' := at + [(i, k)], hits + [hit];
    forall n | 0 <= n < |at'| ensures IsLineHit(hits'[n], at'[n].0, at'[n].1, sources, query) {
      if n < |at| { assert at'[n] == at[n] && hits'[n] == hits[n]; }
    }
  }

  lemma OneLineFurther(at: seq<(nat, nat)>, i: nat, k: nat, sources: seq<Source>, query: string)
    requires MatchesBefore(at, i, k, sources, query)
    ensures MatchesBefore(at + [(i, k)], i, k + 1, sources, query)
    ensures !IsMatch(i, k, sources, query) ==> MatchesBefore(at, i, k + 1, sources, query)
  {
    var at' := at + [(i, k)];
    assert at'[|at|] == (i, k);
    forall a: nat, b: nat | Earlier((a, b), (i, k + 1)) ensures Earlier((a, b), (i, k)) || (a, b) == (i, k) {
    }
    forall n | 0 <= n < |at'| ensures Earlier(at'[n], (i, k + 1)) {
      if n < |at| { assert Earlier(at[n], (i, k)); }
    }
    forall n | 0 <= n < |at| ensures Earlier(at[n], (i, k + 1)) {
      assert Earlier(at[n], (i, k));
    }
  }

  lemma {:induction false} LineList(at0: seq<(nat, nat)>, hits0: seq<Hit>, sources: seq<Source>, query: string, i: nat, k: nat)
    returns (at: seq<(nat, nat)>)
    requires i < |sources| && sources[i].readable && k <= |sources[i].lines|
    requires LineHitsAt(at0, hits0, sources, query) && MatchesBefore(at0, i, 0, sources, query)
    ensures LineHitsAt(at, hits0 + LineHits(sources[i], query, k), sources, query) && MatchesBefore(at, i, k, sources, query)
  {
    at := at0;
    assert hits0 + [] == hits0;
    if k > 0 {
      var s, line := sources[i], k - 1;
      at := LineList(at0, hits0, sources, query, i, line);
      OneLineFurther(at, i, line, sources, query);
      OccursIsPart(query, s.lines[line]);
      var hits := hits0 + LineHits(s, query, line);
      if Occurs(query, s.lines[line]) {
        HashPrefixIs(s.hash);
        OneMoreLine(at, hits, ExactHit(s, line), i, line, sources, query);
        at := at + [(i, line)];
        assert hits + [ExactHit(s, line)] == hits0 + LineHits(s, query, k);
      } else {
        assert hits == hits0 + LineHits(s, query, k);
      }
    }
  }

  lemma NextSource(at: seq<(nat, nat)>, i: nat, k: nat, sources: seq<Source>, query: string)
    requires MatchesBefore(at, i, k, sources, query)
    requires forall b: nat :: IsMatch(i, b, sources, query) ==> b < k
    ensures MatchesBefore(at, i + 1, 0, sources, query)
  {
    forall n | 0 <= n < |at| ensures Earlier(at[n], (i + 1, 0)) {
      assert Earlier(at[n], (i, k));
    }
    forall a: nat, b: nat | Earlier((a, b), (i + 1, 0)) && IsMatch(a, b, sources, query) ensures Earlier((a, b), (i, k)) {
    }
  }

  lemma {:induction false} ExactList(sources: seq<Source>, query: string, n: nat) returns (at: seq<(nat, nat)>)
    requires n <= |sources|
    ensures LineHitsAt(at, ExactHits(sources[..n], query), sources, query) && MatchesBefore(at, n, 0, sources, query)
  {
    at := [];
    if n > 0 {
      var i := n - 1;
      at := ExactList(sources, query, i);
      assert sources[..n][..i] == sources[..i] && sources[..n][i] == sources[i];
      var hits := ExactHits(sources[..i], query);
      if sources[i].readable {
        at := LineList(at, hits, sources, query, i, |sources[i].lines|);
        NextSource(at, i, |sources[i].lines|, sources, query);
      } else {
        NextSource(at, i, 0, sources, query);
        assert ExactHits(sources[..n], query) == hits;
      }
    }
  }

  /** The positions are in ascending order and lie before `n`. */
  ghost predicate Ascending(at: seq<nat>, n: nat) {
    && (forall a, b :: 0 <= a < b < |at| ==> at[a] < at[b])
    && (forall a :: 0 <= a < |at| ==> at[a] < n)
  }

  ghost predicate IsPathHit(hit: Hit, s: Source, query: string) {
    IsPart(query, s.path) && hit.PathSource? && hit.source == s.path && IsHashPrefix(hit.hash, s.hash) && hit.role == s.role
  }

  /** The hits are about the sources at these positions, which are those before `n` whose path has the query in it. */
  ghost predicate PathHitsAt(at: seq<nat>, hits: seq<Hit>, sources: seq<Source>, query: string, n: nat) {
    && |at| == |hits| && Ascending(at, n) && n <= |sources|
    && (forall a :: 0 <= a < |at| ==> IsPathHit(hits[a], sources[at[a]], query))
    && (forall i: nat :: i < n && IsPart(query, sources[i].path) ==> i in at)
  }

  lemma OneMorePath(at: seq<nat>, hits: seq<Hit>, hit: Hit, sources: seq<Source>, query: string, n: nat)
    requires n < |sources| && PathHitsAt(at, hits, sources, query, n) && IsPathHit(hit, sources[n], query)
    ensures PathHitsAt(at + [n], hits + [hit], sources, query, n + 1)
  {
    var at' := at + [n];
    assert at'[|at|] == n;
    forall i: nat | i < n + 1 && IsPart(query, sources[i].path) ensures i in at' {
      assert i < n || i == n;
    }
  }

  lemma {:induction false} PathSourceList(sources: seq<Source>, query: string, n: nat) returns (at: seq<nat>)
    requires n <= |sources|
    ensures PathHitsAt(at, PathSourceHits(sources[..n], query), sources, query, n)
  {
    at := [];
    if n > 0 {
      var s := sources[n - 1];
      at := PathSourceList(sources, query, n - 1);
      assert sources[..n][..n - 1] == sources[..n - 1] && sources[..n][n - 1] == s;
      OccursIsPart(query, s.path);
      if Occurs(query, s.path) {
        HashPrefixIs(s.hash);
        OneMorePath(at, PathSourceHits(sources[..n - 1], query), PathSource(s.path, HashPrefix(s.hash), s.role), sources, query, n - 1);
        at := at + [n - 1];
      }
    }
  }

  ghost predicate Mentions(l: Link, query: string) {
    IsPart(query, l.target) || IsPart(query, l.source)
  }

  /** The hits are the links at these positions, which are those before `n` that mention the query. */
  ghost predicate LinksAt(at: seq<nat>, hits: seq<Hit>, links: seq<Link>, query: string, n: nat) {
    && |at| == |hits| && Ascending(at, n) && n <= |links|
    && (forall a :: 0 <= a < |at| ==> hits[a] == PathReference(links[at[a]]) && Mentions(links[at[a]], query))
    && (forall i: nat :: i < n && Mentions(links[i], query) ==> i in at)
  }

  lemma OneMoreLink(at: seq<nat>, hits: seq<Hit>, links: seq<Link>, query: string, n: nat)
    requires n < |links| && LinksAt(at, hits, links, query, n) && Mentions(links[n], query)
    ensures LinksAt(at + [n], hits + [PathReference(links[n])], links, query, n + 1)
  {
    var at' := at + [n];
    assert at'[|at|] == n;
    forall i: nat | i < n + 1 && Mentions(links[i], query) ensures i in at' {
      assert i < n || i == n;
    }
  }

  lemma {:induction false} PathReferenceList(links: seq<Link>, query: string, n: nat) returns (at: seq<nat>)
    requires n <= |links|
    ensures LinksAt(at, PathReferenceHits(links[..n], query), links, query, n)
  {
    at := [];
    if n > 0 {
      var l := links[n - 1];
      at := PathReferenceList(links, query, n - 1);
      assert links[..n][..n - 1] == links[..n - 1] && links[..n][n - 1] == l;
      OccursIsPart(query, l.target);
      OccursIsPart(query, l.source);
      if Mentions(l, query) {
        OneMoreLink(at, PathReferenceHits(links[..n - 1], query), links, query, n - 1);
        at := at + [n - 1];
      }
    }
  }

  /** The parts that the mode asks for, in this order, cut off after `limit`. */
  ghost predicate IsCut(results: seq<Hit>, lines: seq<Hit>, paths: seq<Hit>, fullText: seq<Hit>, mode: Mode, limit: nat) {
    var all := (if mode == All || mode == ExactOnly then lines else []) + (if mode == All || mode == PathOnly then paths else [])
               + (if mode == All || mode == FullTextOnly then fullText else []);
    results == if |all| <= limit then all else all[..limit]
  }

  /** An answer: the matching lines, the sources with matching paths, the links that mention the query and the full-text rows, each
      in its own order and for the modes that ask for it, cut off after `limit`. */
  ghost predicate IsAnswer(results: seq<Hit>, p: Projection, query: string, mode: Mode, limit: nat, fullText: seq<Hit>) {
    exists lines, paths, links ::
      && IsLines(lines, p.sources, query) && IsPaths(paths, p.sources, query) && IsLinks(links, p.links, query)
      && IsCut(results, lines, paths + links, fullText, mode, limit)
  }

  ghost predicate IsLines(hits: seq<Hit>, sources: seq<Source>, query: string) {
    exists at :: LineHitsAt(at, hits, sources, query) && MatchesBefore(at, |sources|, 0, sources, query)
  }

  ghost predicate IsPaths(hits: seq<Hit>, sources: seq<Source>, query: string) {
    exists at :: PathHitsAt(at, hits, sources, query, |sources|)
  }

  ghost predicate IsLinks(hits: seq<Hit>, links: seq<Link>, query: string) {
    exists at :: LinksAt(at, hits, links, query, |links|)
  }

  lemma LinesAreListed(sources: seq<Source>, query: string)
    ensures IsLines(ExactHits(sources, query), sources, query)
  {
    var at := ExactList(sources, query, |sources|);
    assert sources[..|sources|] == sources;
  }

  lemma PathsAreListed(sources: seq<Source>, query: string)
    ensures IsPaths(PathSourceHits(sources, query), sources, query)
  {
    var at := PathSourceList(sources, query, |sources|);
    assert sources[..|sources|] == sources;
  }

  lemma LinksAreListed(links: seq<Link>, query: string)
    ensures IsLinks(PathReferenceHits(links, query), links, query)
  {
    var at := PathReferenceList(links, query, |links|);
    assert links[..|links|] == links;
  }

  lemma TakeIsCut(p: Projection, query: string, mode: Mode, limit: nat, fullText: seq<Hit>)
    ensures IsCut(Take(AllHits(p, query, mode, fullText), limit), ExactHits(p.sources, query),
                  PathSourceHits(p.sources, query) + PathReferenceHits(p.links, query), fullText, mode, limit)
  {
  }

  /** The simple form is the answer. */
  lemma SimpleFormIsTheAnswer(p: Projection, query: string, mode: Mode, limit: nat, fullText: seq<Hit>)
    ensures IsAnswer(Take(AllHits(p, query, mode, fullText), limit), p, query, mode, limit, fullText)
  {
    LinesAreListed(p.sources, query);
    PathsAreListed(p.sources, query);
    LinksAreListed(p.links, query);
    TakeIsCut(p, query, mode, limit, fullText);
  }

  /** Early exits and all, the result is the first `limit` elements of the simple form; `fullText` stands for the verified
      full-text rows. */
  method Search(p: Projection, query: string, mode: Mode, limit: nat, fullText: seq<Hit>) returns (results: seq<Hit>)
    ensures results == Take(AllHits(p, query, mode, fullText), limit)
    ensures IsAnswer(results, p, query, mode, limit, fullText)
  {
    results := CollectResults(p, query, mode, limit, fullText);
    SimpleFormIsTheAnswer(p, query, mode, limit, fullText);
  }
}
