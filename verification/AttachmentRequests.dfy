/** What an attachment import may ask for: the checks on its arguments and on the posture of its root. */
module AttachmentRequests {
  import opened Common
  import opened FileSystems

  datatype Request = Request(
    file: Option<Path>, kind: string, topic: string, title: string, receivedAt: string, sourceLabel: string, related: seq<string>)

  datatype RootKind = LiveOperatingRoot | ProductSourceFixture | FallbackOrArchive | UnknownRoot

  datatype StateFile = MissingState | NoFrontmatter | MalformedFrontmatter | IrregularState | LinkedState | ReadableState

  // Slugs and titles

  /** Every run of separators becomes one `sep`. */
  function Collapsed(s: string, sep: char, isSep: char -> bool): string {
    if s == "" then ""
    else
      var rest := Collapsed(s[1..], sep, isSep);
      if !isSep(s[0]) then [s[0]] + rest
      else if rest != "" && rest[0] == sep then rest
      else [sep] + rest
  }

  function TrimLeft(s: string, sep: char): string {
    if s != "" && s[0] == sep then TrimLeft(s[1..], sep) else s
  }

  function TrimRight(s: string, sep: char): string {
    if s != "" && s[|s| - 1] == sep then TrimRight(s[..|s| - 1], sep) else s
  }

  function Joined(s: string, sep: char, isSep: char -> bool): string {
    TrimRight(TrimLeft(Collapsed(s, sep, isSep), sep), sep)
  }

  lemma {:induction false} CollapsedKeeps(s: string, sep: char, isSep: char -> bool)
    requires isSep(sep)
    ensures forall c :: c in Collapsed(s, sep, isSep) ==> c == sep || (!isSep(c) && c in s)
    ensures forall c :: c in s && !isSep(c) ==> c in Collapsed(s, sep, isSep)
  {
    if s != "" {
      CollapsedKeeps(s[1..], sep, isSep);
      assert s == [s[0]] + s[1..];
    }
  }

  lemma {:induction false} TrimLeftKeeps(s: string, sep: char)
    ensures var r := TrimLeft(s, sep);
            && (forall c :: c != sep ==> (c in r <==> c in s)) && (r != "" ==> r[0] != sep)
  {
    if s != "" && s[0] == sep {
      TrimLeftKeeps(s[1..], sep);
      assert s == [s[0]] + s[1..];
    }
  }

  lemma {:induction false} TrimRightKeeps(s: string, sep: char)
    ensures var r := TrimRight(s, sep);
            && (forall c :: c != sep ==> (c in r <==> c in s)) && (r != "" ==> r[|r| - 1] != sep && r[0] == s[0])
  {
    if s != "" && s[|s| - 1] == sep {
      var front := s[..|s| - 1];
      TrimRightKeeps(front, sep);
      assert s == front + [sep];
    }
  }

  /** Joining keeps exactly the characters that are no separators, starts and ends with one of them, and so is empty exactly
      when there is none. */
  lemma JoinedIsClean(s: string, sep: char, isSep: char -> bool)
    requires isSep(sep)
    ensures var r := Joined(s, sep, isSep);
            && (forall c :: c in r ==> c == sep || !isSep(c))
            && (forall c :: !isSep(c) ==> (c in r <==> c in s))
            && (r != "" ==> r[0] != sep && r[|r| - 1] != sep)
            && (r != "" <==> exists c :: c in s && !isSep(c))
  {
    var collapsed := Collapsed(s, sep, isSep);
    var left := TrimLeft(collapsed, sep);
    var r := TrimRight(left, sep);
    CollapsedKeeps(s, sep, isSep);
    TrimLeftKeeps(collapsed, sep);
    TrimRightKeeps(left, sep);
    forall c | c in r ensures c == sep || !isSep(c) {
      assert c != sep ==> c in collapsed;
    }
    if r != "" {
      assert r[0] in r && r[0] in s;
    }
  }

  // What a joined text is

  /** The words with something before, between and after them. */
  ghost function Interleaved(around: seq<string>, words: seq<string>): string
    requires |around| == |words| + 1
  {
    if words == [] then around[0] else around[0] + words[0] + Interleaved(around[1..], words[1..])
  }

  /** `words` are the parts of `s` without a separator, each as long as it can be, and `around` is the rest. */
  ghost predicate WordsOf(words: seq<string>, around: seq<string>, s: string, isSep: char -> bool) {
    && |around| == |words| + 1 && s == Interleaved(around, words)
    && AreWords(words, isSep)
    && (forall k :: 0 <= k < |around| ==> forall c :: c in around[k] ==> isSep(c))
    && (forall k :: 0 < k < |words| ==> around[k] != "")
  }

  ghost predicate AreWords(words: seq<string>, isSep: char -> bool) {
    forall k :: 0 <= k < |words| ==> words[k] != "" && forall c :: c in words[k] ==> !isSep(c)
  }

  /** One separator between any two words and nothing at the ends. */
  ghost function Seams(n: nat, sep: char): (r: seq<string>) {
    seq(n + 1, k => if 0 < k < n then [sep] else "")
  }

  /** The words of the text, with one separator between any two. */
  ghost predicate IsJoined(r: string, s: string, sep: char, isSep: char -> bool) {
    exists words, around :: WordsOf(words, around, s, isSep) && r == Interleaved(Seams(|words|, sep), words)
  }

  ghost function Shortened(around: seq<string>, sep: char): (r: seq<string>)
    ensures |r| == |around|
  {
    seq(|around|, k requires 0 <= k < |around| => if around[k] == "" then "" else [sep])
  }

  lemma BeginsWith(start: string, around: seq<string>, words: seq<string>)
    requires |around| == |words| + 1
    ensures Interleaved([start + around[0]] + around[1..], words) == start + Interleaved(around, words)
  {
    assert ([start + around[0]] + around[1..])[1..] == around[1..];
    if words != [] {
      assert (start + around[0]) + words[0] + Interleaved(around[1..], words[1..])
          == start + (around[0] + words[0] + Interleaved(around[1..], words[1..]));
    }
  }

  lemma {:induction false} EndsIn(around: seq<string>, words: seq<string>)
    requires |around| == |words| + 1
    ensures Interleaved(around, words) == Interleaved(around[..|words|] + [""], words) + around[|words|]
  {
    if words != [] {
      EndsIn(around[1..], words[1..]);
      assert around[1..][..|words| - 1] + [""] == (around[..|words|] + [""])[1..];
      var rest := Interleaved(around[1..][..|words| - 1] + [""], words[1..]);
      assert around[0] + words[0] + (rest + around[|words|]) == (around[0] + words[0] + rest) + around[|words|];
    }
  }

  lemma {:induction false} LastIsOfAWord(around: seq<string>, words: seq<string>, isSep: char -> bool)
    requires |around| == |words| + 1 && words != [] && AreWords(words, isSep) && around[|words|] == ""
    ensures var r := Interleaved(around, words); r != "" && !isSep(r[|r| - 1])
  {
    var rest := Interleaved(around[1..], words[1..]);
    if |words| == 1 {
      assert rest == "";
      assert words[0][|words[0]| - 1] in words[0];
      assert Interleaved(around, words) == around[0] + words[0];
    } else {
      LastIsOfAWord(around[1..], words[1..], isSep);
    }
  }

  lemma FirstIsOfAWord(around: seq<string>, words: seq<string>, isSep: char -> bool)
    requires |around| == |words| + 1 && AreWords(words, isSep) && around[0] == ""
    ensures var r := Interleaved(around, words); r != "" ==> !isSep(r[0])
  {
    if words != [] {
      assert words[0][0] in words[0];
    }
  }

  lemma {:induction false} CollapsedWords(s: string, sep: char, isSep: char -> bool) returns (words: seq<string>, around: seq<string>)
    requires isSep(sep)
    ensures WordsOf(words, around, s, isSep) && Collapsed(s, sep, isSep) == Interleaved(Shortened(around, sep), words)
  {
    if s == "" {
      words, around := [], [""];
    } else {
      words, around := CollapsedWords(s[1..], sep, isSep);
      assert s == [s[0]] + s[1..];
      if isSep(s[0]) {
        around := AfterSeparator(s, sep, isSep, words, around);
      } else {
        if words == [] || around[0] != "" {
          NewWord(s[0], sep, isSep, s[1..], words, around);
          words, around := [[s[0]]] + words, [""] + around;
        } else {
          LongerWord(s[0], sep, isSep, s[1..], words, around);
          words := [[s[0]] + words[0]] + words[1..];
        }
      }
    }
  }

  lemma AfterSeparator(s: string, sep: char, isSep: char -> bool, words: seq<string>, around: seq<string>) returns (around': seq<string>)
    requires s != "" && isSep(sep) && isSep(s[0]) && s == [s[0]] + s[1..]
    requires WordsOf(words, around, s[1..], isSep) && Collapsed(s[1..], sep, isSep) == Interleaved(Shortened(around, sep), words)
    ensures WordsOf(words, around', s, isSep) && Collapsed(s, sep, isSep) == Interleaved(Shortened(around', sep), words)
  {
    around' := [[s[0]] + around[0]] + around[1..];
    BeginsWith([s[0]], around, words);
    var short := Shortened(around, sep);
    if around[0] == "" {
      FirstIsOfAWord(short, words, isSep);
      BeginsWith([sep], short, words);
      assert short[0] == "" && [sep] + short[0] == [sep];
      assert Shortened(around', sep) == [[sep] + short[0]] + short[1..];
    } else {
      assert short[0] == [sep];
      assert Shortened(around', sep) == short;
    }
  }

  lemma NewWord(c: char, sep: char, isSep: char -> bool, rest: string, words: seq<string>, around: seq<string>)
    requires !isSep(c) && WordsOf(words, around, rest, isSep) && (words == [] || around[0] != "")
    ensures WordsOf([[c]] + words, [""] + around, [c] + rest, isSep)
    ensures Interleaved(Shortened([""] + around, sep), [[c]] + words) == [c] + Interleaved(Shortened(around, sep), words)
  {
    assert ([[c]] + words)[1..] == words && ([""] + around)[1..] == around;
    assert Shortened([""] + around, sep)[1..] == Shortened(around, sep);
  }

  lemma LongerWord(c: char, sep: char, isSep: char -> bool, rest: string, words: seq<string>, around: seq<string>)
    requires !isSep(c) && WordsOf(words, around, rest, isSep) && words != [] && around[0] == ""
    ensures WordsOf([[c] + words[0]] + words[1..], around, [c] + rest, isSep)
    ensures Interleaved(Shortened(around, sep), [[c] + words[0]] + words[1..]) == [c] + Interleaved(Shortened(around, sep), words)
  {
    var words' := [[c] + words[0]] + words[1..];
    assert words'[1..] == words[1..];
    LongerFirst(c, words, words', around);
    LongerFirst(c, words, words', Shortened(around, sep));
    forall k | 0 <= k < |words'| ensures words'[k] != "" && forall c :: c in words'[k] ==> !isSep(c) {
      assert k > 0 ==> words'[k] == words[k];
      assert k == 0 ==> words'[k] == [c] + words[0];
    }
  }

  lemma Unfolded(around: seq<string>, words: seq<string>)
    requires |around| == |words| + 1 && words != [] && around[0] == ""
    ensures Interleaved(around, words) == words[0] + Interleaved(around[1..], words[1..])
  {
    var first := words[0];
    assert "" + first == first;
  }

  lemma Regroup(c: char, first: string, rest: string)
    ensures ([c] + first) + rest == [c] + (first + rest)
  {
  }

  lemma LongerFirst(c: char, words: seq<string>, longer: seq<string>, around: seq<string>)
    requires |around| == |words| + 1 && |words| == |longer| && words != [] && around[0] == ""
    requires longer[0] == [c] + words[0] && longer[1..] == words[1..]
    ensures Interleaved(around, longer) == [c] + Interleaved(around, words)
  {
    Unfolded(around, words);
    Unfolded(around, longer);
    Regroup(c, words[0], Interleaved(around[1..], words[1..]));
  }

  lemma TrimmedLeft(short: seq<string>, words: seq<string>, sep: char, isSep: char -> bool)
    requires isSep(sep) && |short| == |words| + 1 && AreWords(words, isSep) && short[0] in {"", [sep]}
    ensures TrimLeft(Interleaved(short, words), sep) == Interleaved([""] + short[1..], words)
  {
    var open := [""] + short[1..];
    BeginsWith(short[0], open, words);
    assert short[0] + open[0] == short[0] && open[1..] == short[1..];
    assert [short[0] + open[0]] + open[1..] == short;
    FirstIsOfAWord(open, words, isSep);
    var text := Interleaved(open, words);
    if short[0] == "" {
      assert "" + text == text;
    } else {
      assert ([sep] + text)[1..] == text;
    }
  }

  lemma TrimmedRight(open: seq<string>, words: seq<string>, sep: char, isSep: char -> bool)
    requires isSep(sep) && |open| == |words| + 1 && AreWords(words, isSep) && words != []
    requires open[..|words|] + [""] == Seams(|words|, sep) && open[|words|] in {"", [sep]}
    ensures TrimRight(Interleaved(open, words), sep) == Interleaved(Seams(|words|, sep), words)
  {
    EndsIn(open, words);
    LastIsOfAWord(Seams(|words|, sep), words, isSep);
    TrimOne(Interleaved(Seams(|words|, sep), words), open[|words|], sep);
  }

  lemma TrimmedWords(around: seq<string>, words: seq<string>, sep: char, isSep: char -> bool)
    requires isSep(sep) && |around| == |words| + 1 && AreWords(words, isSep) && forall k :: 0 < k < |words| ==> around[k] != ""
    ensures TrimRight(TrimLeft(Interleaved(Shortened(around, sep), words), sep), sep) == Interleaved(Seams(|words|, sep), words)
  {
    var short := Shortened(around, sep);
    TrimmedLeft(short, words, sep, isSep);
    if words != [] {
      var open := [""] + short[1..];
      assert open[..|words|] + [""] == Seams(|words|, sep);
      TrimmedRight(open, words, sep, isSep);
    }
  }

  lemma TrimOne(inner: string, end: string, sep: char)
    requires inner != "" && inner[|inner| - 1] != sep && end in {"", [sep]}
    ensures TrimRight(inner + end, sep) == inner
  {
    if end == "" {
      assert inner + end == inner;
    } else {
      assert (inner + end)[..|inner|] == inner;
    }
  }

  /** Joining puts one separator between any two words. */
  lemma JoinedIs(s: string, sep: char, isSep: char -> bool)
    requires isSep(sep)
    ensures IsJoined(Joined(s, sep, isSep), s, sep, isSep)
  {
    var words, around := CollapsedWords(s, sep, isSep);
    TrimmedWords(around, words, sep, isSep);
  }

  predicate IsSlugChar(c: char) {
    'a' <= c <= 'z' || '0' <= c <= '9'
  }

  function Ascii(s: string): string {
    if s == "" then "" else (if s[0] as int < 128 then [s[0]] else "") + Ascii(s[1..])
  }

  function SafeSlug(s: string): string {
    Joined(Lower(Ascii(s)), '-', c => !IsSlugChar(c))
  }

  function NormalizedTitle(s: string): string {
    Joined(s, ' ', IsSpace)
  }

  /** A slug is lower-case letters, digits and inner dashes: one path component, whatever was asked for. */
  lemma SlugIsSafe(s: string)
    ensures forall c :: c in SafeSlug(s) ==> IsSlugChar(c) || c == '-'
    ensures SafeSlug(s) != "" <==> HasLetterOrDigit(s)
    ensures SafeSlug(s) != "" ==> IsSlugChar(SafeSlug(s)[0]) && IsSlugChar(SafeSlug(s)[|SafeSlug(s)| - 1])
  {
    JoinedIsClean(Lower(Ascii(s)), '-', c => !IsSlugChar(c));
    PlainHas(s);
  }

  ghost predicate HasLetterOrDigit(s: string) {
    exists c :: c in s && ('a' <= c <= 'z' || 'A' <= c <= 'Z' || '0' <= c <= '9')
  }

  lemma PlainStep(s: string)
    requires s != ""
    ensures var rest := Lower(Ascii(s[1..]));
            Lower(Ascii(s)) == if s[0] as int < 128 then [LowerChar(s[0])] + rest else rest
  {
    var rest := Ascii(s[1..]);
    assert "" + rest == rest;
    assert ([s[0]] + rest)[1..] == rest;
  }

  lemma {:induction false} PlainHas(s: string)
    ensures HasLetterOrDigit(s) <==> exists c :: c in Lower(Ascii(s)) && IsSlugChar(c)
  {
    if s != "" {
      PlainHas(s[1..]);
      PlainStep(s);
      var plain, rest := Lower(Ascii(s)), Lower(Ascii(s[1..]));
      assert s == [s[0]] + s[1..];
      if c :| c in s && ('a' <= c <= 'z' || 'A' <= c <= 'Z' || '0' <= c <= '9') {
        assert c == s[0] ==> LowerChar(c) in plain && IsSlugChar(LowerChar(c));
        assert c in s[1..] ==> HasLetterOrDigit(s[1..]);
      }
      if c :| c in plain && IsSlugChar(c) {
        if c in rest {
          var d :| d in s[1..] && ('a' <= d <= 'z' || 'A' <= d <= 'Z' || '0' <= d <= '9');
          assert d in s;
        } else {
          assert c == LowerChar(s[0]) && s[0] in s;
        }
      }
    }
  }

  ghost predicate IsLowerOf(low: char, c: char) {
    if 'A' <= c <= 'Z' then low as int == c as int + 32 else low == c
  }

  /** The ASCII characters of the text from position `i` on, in their order and in lower case; `at` has their positions. */
  ghost predicate IsPlain(plain: string, s: string, i: nat, at: seq<nat>) {
    && |at| == |plain| && (forall m, n :: 0 <= m < n < |at| ==> at[m] < at[n])
    && (forall n :: 0 <= n < |at| ==> i <= at[n] < |s| && s[at[n]] as int < 128 && IsLowerOf(plain[n], s[at[n]]))
    && (forall k: nat :: i <= k < |s| && s[k] as int < 128 ==> k in at)
  }

  lemma {:induction false} PlainAt(s: string, i: nat) returns (at: seq<nat>)
    requires i <= |s|
    ensures IsPlain(Lower(Ascii(s[i..])), s, i, at)
    decreases |s| - i
  {
    at := [];
    if i < |s| {
      var rest := PlainAt(s, i + 1);
      assert s[i..][0] == s[i] && s[i..][1..] == s[i + 1..];
      PlainStep(s[i..]);
      if s[i] as int < 128 {
        PlainLonger(Lower(Ascii(s[i + 1..])), s, i, rest, LowerChar(s[i]));
        at := [i] + rest;
      } else {
        at := rest;
      }
    }
  }

  lemma PlainLonger(plain: string, s: string, i: nat, at: seq<nat>, low: char)
    requires i < |s| && s[i] as int < 128 && IsPlain(plain, s, i + 1, at) && IsLowerOf(low, s[i])
    ensures IsPlain([low] + plain, s, i, [i] + at)
  {
    var at' := [i] + at;
    assert at'[0] == i;
    forall k: nat | i <= k < |s| && s[k] as int < 128 ensures k in at' {
      assert k == i || k in at;
    }
  }

  /** The letters and digits of the text in lower case, with one dash for whatever else is between them. */
  ghost predicate IsSlugOf(slug: string, text: string) {
    exists plain, at :: IsPlain(plain, text, 0, at) && IsJoined(slug, plain, '-', c => !('a' <= c <= 'z' || '0' <= c <= '9'))
  }

  /** The words of the text with one space between any two. */
  ghost predicate IsTitleOf(title: string, text: string) {
    IsJoined(title, text, ' ', c => c == ' ' || c == '\t' || c == '\n' || c == '\r')
  }

  lemma SameSeparators(r: string, s: string, sep: char, isSep: char -> bool, other: char -> bool)
    requires IsJoined(r, s, sep, isSep) && forall c :: isSep(c) == other(c)
    ensures IsJoined(r, s, sep, other)
  {
    var words, around :| WordsOf(words, around, s, isSep) && r == Interleaved(Seams(|words|, sep), words);
    assert WordsOf(words, around, s, other);
  }

  lemma SlugIs(s: string)
    ensures IsSlugOf(SafeSlug(s), s)
  {
    var at := PlainAt(s, 0);
    assert s[0..] == s;
    var plain, isSep, other := Lower(Ascii(s)), (c: char) => !IsSlugChar(c), (c: char) => !('a' <= c <= 'z' || '0' <= c <= '9');
    JoinedIs(plain, '-', isSep);
    SameSeparators(SafeSlug(s), plain, '-', isSep, other);
    assert IsPlain(plain, s, 0, at);
  }

  lemma TitleIs(s: string)
    ensures IsTitleOf(NormalizedTitle(s), s)
  {
    JoinedIs(s, ' ', IsSpace);
    SameSeparators(NormalizedTitle(s), s, ' ', IsSpace, (c: char) => c == ' ' || c == '\t' || c == '\n' || c == '\r');
  }

  ghost predicate HasWord(s: string) {
    exists c :: c in s && c != ' ' && c != '\t' && c != '\n' && c != '\r'
  }

  /** A title is refused exactly when it holds nothing but white space. */
  lemma TitleIsEmptyWhen(s: string)
    ensures NormalizedTitle(s) != "" <==> HasWord(s)
  {
    JoinedIsClean(s, ' ', IsSpace);
  }

  function PluralKindDir(slug: string): string {
    if EndsWith(slug, "s") then slug
    else if EndsWith(slug, "y") && |slug| > 1 then slug[..|slug| - 1] + "ies"
    else slug + "s"
  }

  ghost predicate IsPlural(plural: string, slug: string) {
    || (plural == slug && exists stem :: slug == stem + "s")
    || (exists stem :: stem != "" && slug == stem + "y" && plural == stem + "ies")
    || (plural == slug + "s" && forall stem :: slug != stem + "s" && (stem != "" ==> slug != stem + "y"))
  }

  lemma PluralIs(slug: string)
    ensures IsPlural(PluralKindDir(slug), slug)
  {
    if slug != "" {
      var stem, last := slug[..|slug| - 1], slug[|slug| - 1];
      assert slug == stem + [last];
      forall other, end | slug == other + [end] ensures other == stem && end == last {
        assert (other + [end])[|other|] == end && (other + [end])[..|other|] == other;
      }
    }
  }

  // The checks

  datatype RequestError =
    | FileRequired | KindUnsafe | TopicUnsafe | TitleRequired | BadDate | RefConflict(ref: string) | RefNotResearch(ref: string)
    | WrongRoot(kind: RootKind) | BadState(state: StateFile)

  /** A research reference is fine and names a Markdown file under `project/research/`. */
  ghost predicate ResearchRef(ref: string, conflict: string -> bool) {
    !conflict(ref) && exists name :: ref == "project/research/" + name + ".md"
  }

  lemma RefIsResearch(ref: string, conflict: string -> bool)
    ensures ResearchRef(ref, conflict) <==> !conflict(ref) && StartsWith(ref, "project/research/") && EndsWith(ref, ".md")
  {
    var dir, end := "project/research/", ".md";
    if StartsWith(ref, dir) && EndsWith(ref, end) {
      var i := |ref| - |end|;
      assert ref[..|dir|][|dir| - 1] == '/';
      forall k | i <= k < |ref| ensures ref[k] != '/' {
        assert ref[k] == ref[i..][k - i];
      }
      assert |dir| <= i;
      assert ref == dir + ref[|dir|..i] + end;
    }
    if name :| ref == dir + name + end {
      assert ref[..|dir|] == dir && ref[|ref| - |end|..] == end;
    }
  }

  /** What the arguments must be, apart from the source's extension. */
  ghost predicate ArgumentsGood(req: Request, isoDate: string -> bool, conflict: string -> bool) {
    && req.file.Some? && HasLetterOrDigit(req.kind) && HasLetterOrDigit(req.topic) && HasWord(req.title)
    && (req.receivedAt == "" || isoDate(req.receivedAt))
    && forall ref :: ref in req.related ==> ResearchRef(ref, conflict)
  }

  /** No error exactly when the arguments are good. */
  method ArgumentErrors(req: Request, isoDate: string -> bool, conflict: string -> bool) returns (errors: seq<RequestError>)
    ensures errors == [] <==> ArgumentsGood(req, isoDate, conflict)
  {
    SlugIsSafe(req.kind);
    SlugIsSafe(req.topic);
    TitleIsEmptyWhen(req.title);
    errors := [];
    if req.file.None? { errors := errors + [FileRequired]; }
    if SafeSlug(req.kind) == "" { errors := errors + [KindUnsafe]; }
    if SafeSlug(req.topic) == "" { errors := errors + [TopicUnsafe]; }
    if NormalizedTitle(req.title) == "" { errors := errors + [TitleRequired]; }
    if req.receivedAt != "" && !isoDate(req.receivedAt) { errors := errors + [BadDate]; }
    var refErrors := RefErrors(req.related, conflict);
    errors := errors + refErrors;
  }

  method RefErrors(refs: seq<string>, conflict: string -> bool) returns (errors: seq<RequestError>)
    ensures errors == [] <==> forall ref :: ref in refs ==> ResearchRef(ref, conflict)
  {
    errors := [];
    for i := 0 to |refs|
      invariant errors == [] <==> forall j :: 0 <= j < i ==> ResearchRef(refs[j], conflict)
    {
      var ref := refs[i];
      RefIsResearch(ref, conflict);
      if conflict(ref) {
        errors := errors + [RefConflict(ref)];
      } else if !StartsWith(ref, "project/research/") || !EndsWith(ref, ".md") {
        errors := errors + [RefNotResearch(ref)];
      }
    }
  }

  method PostureErrors(root: RootKind, state: StateFile) returns (errors: seq<RequestError>)
    ensures errors == [] <==> root == LiveOperatingRoot && state == ReadableState
  {
    errors := [];
    if root != LiveOperatingRoot { errors := errors + [WrongRoot(root)]; }
    if state != ReadableState { errors := errors + [BadState(state)]; }
  }
}
