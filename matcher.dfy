/**
  * The regular expression processLogLine applies to a log line,
  *
  *   from (\[?[a-fA-F0-9:.]+\]?):\d+ accepted .* \[(.*?)\]
  *
  * searched for anywhere in the line with Go's leftmost-first semantics:
  * the match that starts first wins, and among the matches that start
  * there, the one a backtracking matcher reaches first, trying the greedy
  * `\[?`, `+`, `\]?`, `\d+` and `.*` longest first and the lazy `.*?`
  * shortest first. `.` does not match a newline.
  *
  * The search is written below as one function per piece of the pattern,
  * each trying its alternatives in that order. The relation `Matched`
  * says what any match of the pattern looks like; the lemmas prove that
  * the search returns only matches (with a group 2 free of ']'), finds one
  * whenever one exists, and finds the leftmost.
  */
module LineMatch {
  import opened Wrappers
  import opened Text

  // ---------------------------------------------------------------------------
  // Character classes

  /**
    * The character classes of the pattern that are repeated, and the
    * characters the lazy group 2 passes over before its closing ']'.
    */
  datatype CharClass = AddrChars | Digits | AnyButNewline | GroupChars

  /** `[a-fA-F0-9:.]`, `\d`, `.`, and `.` short of ']' */
  predicate In(c: char, cls: CharClass) {
    match cls
    case AddrChars => '0' <= c <= '9' || 'a' <= c <= 'f' || 'A' <= c <= 'F' || c == ':' || c == '.'
    case Digits => '0' <= c <= '9'
    case AnyButNewline => c != '\n'
    case GroupChars => c != '\n' && c != ']'
  }

  /** Every character of `s[i..j]` is of `cls`. */
  predicate AllIn(s: string, i: nat, j: nat, cls: CharClass)
    requires i <= j <= |s|
    decreases j - i
  {
    i == j || (In(s[i], cls) && AllIn(s, i + 1, j, cls))
  }

  /** AllIn says of each character what its name says. */
  lemma {:induction false} AllInMeans(s: string, i: nat, j: nat, cls: CharClass)
    requires i <= j <= |s|
    ensures AllIn(s, i, j, cls) <==> forall k :: i <= k < j ==> In(s[k], cls)
    decreases j - i
  {
    if i < j {
      AllInMeans(s, i + 1, j, cls);
    }
  }

  /** A run of `cls` is one up to any earlier end. */
  lemma {:induction false} AllInPrefix(s: string, i: nat, j: nat, j': nat, cls: CharClass)
    requires i <= j' <= j <= |s| && AllIn(s, i, j, cls)
    ensures AllIn(s, i, j', cls)
    decreases j - i
  {
    if i < j' {
      AllInPrefix(s, i + 1, j, j', cls);
    }
  }

  /** The last character of a non-empty run is of `cls`. */
  lemma {:induction false} AllInLast(s: string, i: nat, j: nat, cls: CharClass)
    requires i < j <= |s| && AllIn(s, i, j, cls)
    ensures In(s[j - 1], cls)
    decreases j - i
  {
    if i + 1 < j {
      AllInLast(s, i + 1, j, cls);
    }
  }

  /** The characters of group 2 are characters `.` matches. */
  lemma {:induction false} GroupIsAny(s: string, i: nat, j: nat)
    requires i <= j <= |s| && AllIn(s, i, j, GroupChars)
    ensures AllIn(s, i, j, AnyButNewline)
    decreases j - i
  {
    if i < j {
      GroupIsAny(s, i + 1, j);
    }
  }

  /** The end of the longest run of characters of `cls` starting at `i`. */
  function Run(s: string, i: nat, cls: CharClass): (e: nat)
    requires i <= |s|
    ensures i <= e <= |s| && AllIn(s, i, e, cls)
    ensures e < |s| ==> !In(s[e], cls)
    decreases |s| - i
  {
    if i < |s| && In(s[i], cls) then Run(s, i + 1, cls) else i
  }

  /** A run of `cls` from `i` to `j` ends no later than the longest one. */
  lemma {:induction false} RunBound(s: string, i: nat, j: nat, cls: CharClass)
    requires i <= j <= |s| && AllIn(s, i, j, cls)
    ensures j <= Run(s, i, cls)
    decreases j - i
  {
    if i < j {
      RunBound(s, i + 1, j, cls);
    }
  }

  // ---------------------------------------------------------------------------
  // What a match is

  /**
    * The positions of a match: it starts at `start` with "from ", group 1
    * runs from `start + 5` to `addrEnd`, the port from `addrEnd + 1` to
    * `portEnd`, " accepted " follows, and group 2 runs from `open + 2` to
    * `close`, between " [" and "]".
    */
  datatype Span = Span(start: nat, addrEnd: nat, portEnd: nat, open: nat, close: nat)

  /** The part of text matched by `\[?[a-fA-F0-9:.]+\]?` that is not a bracket. */
  function AddrCore(x: string): string {
    var lo := if x != [] && x[0] == '[' then 1 else 0;
    var hi := if |x| > lo && x[|x| - 1] == ']' then |x| - 1 else |x|;
    x[lo..hi]
  }

  /** Text that `\[?[a-fA-F0-9:.]+\]?` matches. */
  predicate AddrShape(x: string) {
    AddrCore(x) != [] && AllIn(AddrCore(x), 0, |AddrCore(x)|, AddrChars)
  }

  /** From `portEnd` on: " accepted ", a run without newlines, " [", group 2 without newlines, "]". */
  predicate TailMatched(s: string, m: Span) {
    m.portEnd + 10 <= m.open && m.open + 2 <= m.close < |s|
    && OccursAt(s, " accepted ", m.portEnd)
    && AllIn(s, m.portEnd + 10, m.open, AnyButNewline)
    && OccursAt(s, " [", m.open)
    && AllIn(s, m.open + 2, m.close, AnyButNewline)
    && s[m.close] == ']'
  }

  /** From `addrEnd` on: ':', at least one digit, and the tail. */
  predicate PortMatched(s: string, m: Span) {
    m.addrEnd + 1 < m.portEnd <= |s| && s[m.addrEnd] == ':'
    && AllIn(s, m.addrEnd + 1, m.portEnd, Digits)
    && TailMatched(s, m)
  }

  /** `m` marks a match of the whole pattern in `s`. */
  predicate Matched(s: string, m: Span) {
    m.start + 5 <= m.addrEnd && PortMatched(s, m)
    && OccursAt(s, "from ", m.start)
    && AddrShape(s[m.start + 5..m.addrEnd])
  }

  /** Group 2 of `m` holds no ']', as the lazy `.*?` makes it. */
  predicate Lazy(s: string, m: Span)
    requires m.open + 2 <= m.close <= |s|
  {
    AllIn(s, m.open + 2, m.close, GroupChars)
  }

  /** The order of the positions of a match, which every piece of the search keeps. */
  predicate Ordered(s: string, m: Span) {
    m.addrEnd < m.portEnd && m.portEnd + 10 <= m.open && m.open + 2 <= m.close < |s|
  }

  /** Where the class run of group 1 starts, given where group 1 starts at `a`. */
  function CoreStart(s: string, a: nat): nat
    requires a <= |s|
  {
    if a < |s| && s[a] == '[' then a + 1 else a
  }

  /** Where the class run of group 1 ends, given where group 1 ends at `b`. */
  function CoreEnd(s: string, b: nat): nat
    requires b <= |s|
  {
    if b > 0 && s[b - 1] == ']' then b - 1 else b
  }

  /** `s[c..b]` is a non-empty run of the class, then an optional ']'. */
  predicate CoreThenClose(s: string, c: nat, b: nat)
    requires b <= |s|
  {
    c < CoreEnd(s, b) && AllIn(s, c, CoreEnd(s, b), AddrChars)
    && (b == CoreEnd(s, b) || (b == CoreEnd(s, b) + 1 && s[CoreEnd(s, b)] == ']'))
  }

  // ---------------------------------------------------------------------------
  // The search, one piece of the pattern at a time

  /** `(.*?)\]` from `q`: the first ']' ends the group, unless a newline comes before it. */
  function LazyClose(s: string, q: nat): (r: Option<nat>)
    requires q <= |s|
    ensures r.Some? ==> q <= r.value < |s|
    decreases |s| - q
  {
    if q == |s| then None
    else if s[q] == ']' then Some(q)
    else if s[q] == '\n' then None
    else LazyClose(s, q + 1)
  }

  /** ` \[(.*?)\]` at `p`: the end of group 2. */
  function Bracketed(s: string, p: nat): (r: Option<nat>)
    requires p <= |s|
    ensures r.Some? ==> p + 2 <= r.value < |s|
  {
    if OccursAt(s, " [", p) then LazyClose(s, p + 2) else None
  }

  /** `.*` from `a` then the bracket, with the run ending at `p`, then at `p - 1`, and so on down to `a`. */
  function Greedy(s: string, i: nat, g: nat, e: nat, a: nat, p: nat): (r: Option<Span>)
    requires a <= p <= |s|
    ensures r.Some? ==> r.value.start == i && r.value.addrEnd == g && r.value.portEnd == e
    ensures r.Some? ==> a <= r.value.open <= p && r.value.open + 2 <= r.value.close < |s|
    decreases p - a
  {
    match Bracketed(s, p)
    case Some(c) => Some(Span(i, g, e, p, c))
    case None => if p == a then None else Greedy(s, i, g, e, a, p - 1)
  }

  /** ` accepted .* \[(.*?)\]` at `e`: the longest run without newlines is the first end `.*` tries. */
  function Accepted(s: string, i: nat, g: nat, e: nat): (r: Option<Span>)
    requires e <= |s|
    ensures r.Some? ==> r.value.start == i && r.value.addrEnd == g && r.value.portEnd == e
    ensures r.Some? ==> e + 10 <= r.value.open && r.value.open + 2 <= r.value.close < |s|
  {
    if OccursAt(s, " accepted ", e) then Greedy(s, i, g, e, e + 10, Run(s, e + 10, AnyButNewline)) else None
  }

  /** `\d+` from `d` and the rest of the pattern, with the digits ending at `q`, then at `q - 1`, down to `d + 1`. */
  function DigitsThen(s: string, i: nat, g: nat, d: nat, q: nat): (r: Option<Span>)
    requires g < d < q <= |s|
    ensures r.Some? ==> r.value.start == i && r.value.addrEnd == g && d < r.value.portEnd <= q && Ordered(s, r.value)
    decreases q - d
  {
    match Accepted(s, i, g, q)
    case Some(m) => Some(m)
    case None => if q == d + 1 then None else DigitsThen(s, i, g, d, q - 1)
  }

  /** `:\d+` and the rest of the pattern at `g`. */
  function Port(s: string, i: nat, g: nat): (r: Option<Span>)
    requires g <= |s|
    ensures r.Some? ==> r.value.start == i && r.value.addrEnd == g && Ordered(s, r.value)
  {
    if g < |s| && s[g] == ':' then
      var q := Run(s, g + 1, Digits);
      if q == g + 1 then None else DigitsThen(s, i, g, g + 1, q)
    else None
  }

  /** `\]?` at `t` and the rest: first with the bracket, then without it. */
  function CloseOpt(s: string, i: nat, t: nat): (r: Option<Span>)
    requires t <= |s|
    ensures r.Some? ==> r.value.start == i && Ordered(s, r.value)
    ensures r.Some? ==> r.value.addrEnd == t || (r.value.addrEnd == t + 1 && s[t] == ']')
  {
    var withBracket := if t < |s| && s[t] == ']' then Port(s, i, t + 1) else None;
    if withBracket.Some? then withBracket else Port(s, i, t)
  }

  /** `[a-fA-F0-9:.]+` from `c` and the rest, with the run ending at `t`, then at `t - 1`, down to `c + 1`. */
  function ClassThen(s: string, i: nat, c: nat, t: nat): (r: Option<Span>)
    requires c < t <= |s|
    ensures r.Some? ==> r.value.start == i && Ordered(s, r.value) && c < r.value.addrEnd
    decreases t - c
  {
    match CloseOpt(s, i, t)
    case Some(m) => Some(m)
    case None => if t == c + 1 then None else ClassThen(s, i, c, t - 1)
  }

  /** `[a-fA-F0-9:.]+\]?` and the rest at `c`. */
  function Class(s: string, i: nat, c: nat): (r: Option<Span>)
    requires c <= |s|
    ensures r.Some? ==> r.value.start == i && Ordered(s, r.value) && c < r.value.addrEnd
  {
    var t := Run(s, c, AddrChars);
    if t == c then None else ClassThen(s, i, c, t)
  }

  /** `\[?` at `a` and the rest: first with the bracket, then without it. */
  function OpenOpt(s: string, i: nat, a: nat): (r: Option<Span>)
    requires a <= |s|
    ensures r.Some? ==> r.value.start == i && Ordered(s, r.value) && a < r.value.addrEnd
  {
    var withBracket := if a < |s| && s[a] == '[' then Class(s, i, a + 1) else None;
    if withBracket.Some? then withBracket else Class(s, i, a)
  }

  /** The pattern anchored at `i`. */
  function MatchAt(s: string, i: nat): (r: Option<Span>)
    requires i <= |s|
    ensures r.Some? ==> r.value.start == i && Ordered(s, r.value) && i + 5 < r.value.addrEnd
  {
    if OccursAt(s, "from ", i) then OpenOpt(s, i, i + 5) else None
  }

  /** The first start at or after `i` where the pattern matches. */
  function Search(s: string, i: nat): (r: Option<Span>)
    requires i <= |s|
    ensures r.Some? ==> i <= r.value.start && Ordered(s, r.value) && r.value.start + 5 < r.value.addrEnd
    decreases |s| - i
  {
    match MatchAt(s, i)
    case Some(m) => Some(m)
    case None => if i == |s| then None else Search(s, i + 1)
  }

  /**
    * regexp.FindStringSubmatch: groups 1 and 2 of the leftmost-first match,
    * or None. Group 1 has the shape `\[?[a-fA-F0-9:.]+\]?`, and group 2
    * holds neither ']' nor a newline.
    */
  function FindSubmatch(s: string): (r: Option<(string, string)>)
    ensures r.Some? ==> AddrShape(r.value.0) && Every(r.value.1, GroupChars)
  {
    match Search(s, 0)
    case None => None
    case Some(m) =>
      SearchFirst(s, 0);
      MatchedShape(s, m.start);
      AllInSlice(s, m.open + 2, m.open + 2, m.close, GroupChars);
      Some((s[m.start + 5..m.addrEnd], s[m.open + 2..m.close]))
  }

  // ---------------------------------------------------------------------------
  // Soundness: what the search returns is a match

  lemma {:induction false} LazyCloseSound(s: string, q: nat)
    requires q <= |s| && LazyClose(s, q).Some?
    ensures s[LazyClose(s, q).value] == ']' && AllIn(s, q, LazyClose(s, q).value, GroupChars)
    decreases |s| - q
  {
    if s[q] != ']' {
      LazyCloseSound(s, q + 1);
    }
  }

  lemma {:induction false} GreedySound(s: string, i: nat, g: nat, e: nat, a: nat, p: nat)
    requires a <= p <= |s| && Greedy(s, i, g, e, a, p).Some?
    ensures Bracketed(s, Greedy(s, i, g, e, a, p).value.open) == Some(Greedy(s, i, g, e, a, p).value.close)
    decreases p - a
  {
    if Bracketed(s, p).None? {
      GreedySound(s, i, g, e, a, p - 1);
    }
  }

  /** `.*` takes the longest run after which the bracket follows. */
  lemma {:induction false} GreedyLongest(s: string, i: nat, g: nat, e: nat, a: nat, p: nat)
    requires a <= p <= |s| && Greedy(s, i, g, e, a, p).Some?
    ensures forall p' :: Greedy(s, i, g, e, a, p).value.open < p' <= p ==> Bracketed(s, p').None?
    decreases p - a
  {
    if Bracketed(s, p).None? {
      GreedyLongest(s, i, g, e, a, p - 1);
    }
  }

  lemma AcceptedSound(s: string, i: nat, g: nat, e: nat)
    requires e <= |s| && Accepted(s, i, g, e).Some?
    ensures TailMatched(s, Accepted(s, i, g, e).value) && Lazy(s, Accepted(s, i, g, e).value)
  {
    var m, a := Accepted(s, i, g, e).value, e + 10;
    GreedySound(s, i, g, e, a, Run(s, a, AnyButNewline));
    AllInPrefix(s, a, Run(s, a, AnyButNewline), m.open, AnyButNewline);
    LazyCloseSound(s, m.open + 2);
    GroupIsAny(s, m.open + 2, m.close);
  }

  lemma {:induction false} DigitsThenSound(s: string, i: nat, g: nat, d: nat, q: nat)
    requires g < d < q <= |s| && AllIn(s, d, q, Digits) && DigitsThen(s, i, g, d, q).Some?
    ensures var m := DigitsThen(s, i, g, d, q).value;
      AllIn(s, d, m.portEnd, Digits) && TailMatched(s, m) && Lazy(s, m)
    decreases q - d
  {
    if Accepted(s, i, g, q).Some? {
      AcceptedSound(s, i, g, q);
    } else {
      AllInPrefix(s, d, q, q - 1, Digits);
      DigitsThenSound(s, i, g, d, q - 1);
    }
  }

  lemma PortSound(s: string, i: nat, g: nat)
    requires g <= |s| && Port(s, i, g).Some?
    ensures PortMatched(s, Port(s, i, g).value) && Lazy(s, Port(s, i, g).value)
  {
    DigitsThenSound(s, i, g, g + 1, Run(s, g + 1, Digits));
  }

  lemma CloseOptSound(s: string, i: nat, t: nat)
    requires t <= |s| && CloseOpt(s, i, t).Some?
    ensures PortMatched(s, CloseOpt(s, i, t).value) && Lazy(s, CloseOpt(s, i, t).value)
  {
    if t < |s| && s[t] == ']' && Port(s, i, t + 1).Some? {
      PortSound(s, i, t + 1);
    } else {
      PortSound(s, i, t);
    }
  }

  /** A class run up to `t`, then an optional ']' at `t`. */
  lemma CoreAt(s: string, c: nat, t: nat, b: nat)
    requires c < t <= |s| && AllIn(s, c, t, AddrChars) && b <= |s|
    requires b == t || (b == t + 1 && s[t] == ']')
    ensures CoreThenClose(s, c, b)
  {
    AllInLast(s, c, t, AddrChars);
  }

  lemma {:induction false} ClassThenSound(s: string, i: nat, c: nat, t: nat)
    requires c < t <= |s| && AllIn(s, c, t, AddrChars) && ClassThen(s, i, c, t).Some?
    ensures var m := ClassThen(s, i, c, t).value;
      PortMatched(s, m) && Lazy(s, m) && CoreThenClose(s, c, m.addrEnd)
    decreases t - c
  {
    if CloseOpt(s, i, t).Some? {
      CloseOptSound(s, i, t);
      CoreAt(s, c, t, CloseOpt(s, i, t).value.addrEnd);
    } else {
      AllInPrefix(s, c, t, t - 1, AddrChars);
      ClassThenSound(s, i, c, t - 1);
    }
  }

  lemma OpenOptSound(s: string, i: nat, a: nat)
    requires a <= |s| && OpenOpt(s, i, a).Some?
    ensures var m := OpenOpt(s, i, a).value;
      PortMatched(s, m) && Lazy(s, m) && CoreThenClose(s, CoreStart(s, a), m.addrEnd)
  {
    if a < |s| && s[a] == '[' && Class(s, i, a + 1).Some? {
      ClassThenSound(s, i, a + 1, Run(s, a + 1, AddrChars));
    } else {
      ClassThenSound(s, i, a, Run(s, a, AddrChars));
    }
  }

  /** A run of `cls` in a slice is a run in the whole text. */
  lemma {:induction false} AllInSlice(s: string, c: nat, k: nat, u: nat, cls: CharClass)
    requires c <= k <= u <= |s|
    ensures AllIn(s, k, u, cls) <==> AllIn(s[c..u], k - c, u - c, cls)
    decreases u - k
  {
    if k < u {
      AllInSlice(s, c, k + 1, u, cls);
      assert s[c..u][k - c] == s[k];
    }
  }

  lemma SliceOfSlice(s: string, a: nat, b: nat, i: nat, j: nat)
    requires a <= i <= j <= b <= |s|
    ensures s[a..b][i - a..j - a] == s[i..j]
  {
    var t := s[a..b][i - a..j - a];
    assert forall k :: 0 <= k < |t| ==> t[k] == s[i..j][k];
  }

  /** The core of group 1 found at `a` is the class run. */
  lemma CoreSlice(s: string, a: nat, b: nat)
    requires a <= b <= |s| && CoreStart(s, a) < CoreEnd(s, b)
    ensures AddrCore(s[a..b]) == s[CoreStart(s, a)..CoreEnd(s, b)]
  {
    var x, c, u := s[a..b], CoreStart(s, a), CoreEnd(s, b);
    assert x != [] && x[0] == s[a];
    var lo := if x[0] == '[' then 1 else 0;
    assert c == a + lo;
    assert x[|x| - 1] == s[b - 1];
    var hi := if |x| > lo && x[|x| - 1] == ']' then |x| - 1 else |x|;
    assert u == a + hi;
    assert AddrCore(x) == x[lo..hi];
    SliceOfSlice(s, a, b, c, u);
  }

  /** A non-empty run of the class, taken out of the text. */
  lemma RunText(z: string, s: string, c: nat, u: nat)
    requires c < u <= |s| && z == s[c..u] && AllIn(s, c, u, AddrChars)
    ensures z != [] && AllIn(z, 0, |z|, AddrChars)
  {
    AllInSlice(s, c, c, u, AddrChars);
  }

  /** Group 1 found at `a` has the shape `\[?[a-fA-F0-9:.]+\]?`. */
  lemma CoreOf(s: string, a: nat, b: nat)
    requires a <= b <= |s| && CoreThenClose(s, CoreStart(s, a), b)
    ensures AddrShape(s[a..b])
  {
    CoreSlice(s, a, b);
    RunText(AddrCore(s[a..b]), s, CoreStart(s, a), CoreEnd(s, b));
  }

  /** A match found at `i` is a match, and its group 2 holds no ']'. */
  lemma MatchedShape(s: string, i: nat)
    requires i <= |s| && MatchAt(s, i).Some?
    ensures Matched(s, MatchAt(s, i).value) && Lazy(s, MatchAt(s, i).value)
  {
    OpenOptSound(s, i, i + 5);
    CoreOf(s, i + 5, MatchAt(s, i).value.addrEnd);
  }

  /** Search returns what the pattern anchored at its start finds. */
  lemma {:induction false} SearchFirst(s: string, i: nat)
    requires i <= |s| && Search(s, i).Some?
    ensures MatchAt(s, Search(s, i).value.start) == Search(s, i)
    decreases |s| - i
  {
    if MatchAt(s, i).None? {
      SearchFirst(s, i + 1);
    }
  }

  /** FindSubmatch returns the groups of a match of the whole pattern, whose group 2 holds no ']'. */
  lemma FindSound(s: string)
    requires FindSubmatch(s).Some?
    ensures Matched(s, Search(s, 0).value) && Lazy(s, Search(s, 0).value)
  {
    SearchFirst(s, 0);
    MatchedShape(s, Search(s, 0).value.start);
  }

  // ---------------------------------------------------------------------------
  // Completeness: a match anywhere is found

  lemma {:induction false} LazyCloseFinds(s: string, q: nat, c: nat)
    requires q <= c < |s| && s[c] == ']' && AllIn(s, q, c, AnyButNewline)
    ensures LazyClose(s, q).Some?
    decreases c - q
  {
    if s[q] != ']' {
      LazyCloseFinds(s, q + 1, c);
    }
  }

  lemma {:induction false} GreedyFinds(s: string, i: nat, g: nat, e: nat, a: nat, p: nat, p0: nat)
    requires a <= p0 <= p <= |s| && Bracketed(s, p0).Some?
    ensures Greedy(s, i, g, e, a, p).Some?
    decreases p - p0
  {
    if p > p0 && Bracketed(s, p).None? {
      GreedyFinds(s, i, g, e, a, p - 1, p0);
    }
  }

  lemma AcceptedFinds(s: string, i: nat, g: nat, m: Span)
    requires TailMatched(s, m)
    ensures Accepted(s, i, g, m.portEnd).Some?
  {
    var a := m.portEnd + 10;
    RunBound(s, a, m.open, AnyButNewline);
    LazyCloseFinds(s, m.open + 2, m.close);
    GreedyFinds(s, i, g, m.portEnd, a, Run(s, a, AnyButNewline), m.open);
  }

  lemma {:induction false} DigitsThenFinds(s: string, i: nat, g: nat, d: nat, q: nat, m: Span)
    requires g < d < m.portEnd <= q <= |s| && TailMatched(s, m)
    ensures DigitsThen(s, i, g, d, q).Some?
    decreases q - d
  {
    if q == m.portEnd {
      AcceptedFinds(s, i, g, m);
    } else if Accepted(s, i, g, q).None? {
      DigitsThenFinds(s, i, g, d, q - 1, m);
    }
  }

  lemma PortFinds(s: string, i: nat, m: Span)
    requires PortMatched(s, m)
    ensures Port(s, i, m.addrEnd).Some?
  {
    var d := m.addrEnd + 1;
    RunBound(s, d, m.portEnd, Digits);
    DigitsThenFinds(s, i, m.addrEnd, d, Run(s, d, Digits), m);
  }

  lemma CloseOptFinds(s: string, i: nat, t: nat, m: Span)
    requires t <= |s| && PortMatched(s, m)
    requires m.addrEnd == t || (m.addrEnd == t + 1 && s[t] == ']')
    ensures CloseOpt(s, i, t).Some?
  {
    PortFinds(s, i, m);
  }

  lemma {:induction false} ClassThenFinds(s: string, i: nat, c: nat, t: nat, u: nat, m: Span)
    requires c < u <= t <= |s| && PortMatched(s, m)
    requires m.addrEnd == u || (m.addrEnd == u + 1 && s[u] == ']')
    ensures ClassThen(s, i, c, t).Some?
    decreases t - c
  {
    if t == u {
      CloseOptFinds(s, i, u, m);
    } else if CloseOpt(s, i, t).None? {
      ClassThenFinds(s, i, c, t - 1, u, m);
    }
  }

  lemma ClassFinds(s: string, i: nat, c: nat, u: nat, m: Span)
    requires c < u <= |s| && AllIn(s, c, u, AddrChars) && PortMatched(s, m)
    requires m.addrEnd == u || (m.addrEnd == u + 1 && s[u] == ']')
    ensures Class(s, i, c).Some?
  {
    RunBound(s, c, u, AddrChars);
    ClassThenFinds(s, i, c, Run(s, c, AddrChars), u, m);
  }

  /** Where the class run of group 1 lies, given its text. */
  lemma CoreBounds(s: string, a: nat, b: nat) returns (u: nat)
    requires a <= b <= |s| && AddrShape(s[a..b])
    ensures CoreStart(s, a) < u && (b == u || (b == u + 1 && s[u] == ']'))
    ensures AllIn(s, CoreStart(s, a), u, AddrChars)
  {
    var x, c := s[a..b], CoreStart(s, a);
    assert x[0] == s[a] && x[|x| - 1] == s[b - 1];
    u := if |x| > c - a && x[|x| - 1] == ']' then b - 1 else b;
    assert AddrCore(x) == x[c - a..u - a];
    SliceOfSlice(s, a, b, c, u);
    AllInSlice(s, c, c, u, AddrChars);
  }

  lemma MatchAtFinds(s: string, m: Span)
    requires Matched(s, m)
    ensures MatchAt(s, m.start).Some?
  {
    var a := m.start + 5;
    var u := CoreBounds(s, a, m.addrEnd);
    ClassFinds(s, m.start, CoreStart(s, a), u, m);
  }

  /** Search finds a match at or before any start where the anchored pattern matches. */
  lemma {:induction false} SearchFinds(s: string, i: nat, j: nat)
    requires i <= j <= |s| && MatchAt(s, j).Some?
    ensures Search(s, i).Some? && Search(s, i).value.start <= j
    decreases j - i
  {
    if i < j && MatchAt(s, i).None? {
      SearchFinds(s, i + 1, j);
    }
  }

  /** Whenever the pattern matches somewhere, FindSubmatch finds a match, and one that starts no later. */
  lemma FindComplete(s: string, m: Span)
    requires Matched(s, m)
    ensures Search(s, 0).Some? && Search(s, 0).value.start <= m.start
    ensures FindSubmatch(s).Some?
  {
    MatchAtFinds(s, m);
    SearchFinds(s, 0, m.start);
  }

  // ---------------------------------------------------------------------------
  // What the search returns on an access line

  /** The search passes over text without an 'f', where "from " cannot start. */
  lemma {:induction false} SearchSkips(s: string, i: nat, j: nat)
    requires i <= j <= |s| && forall k :: i <= k < j ==> s[k] != 'f'
    ensures Search(s, i) == Search(s, j)
    decreases j - i
  {
    if i < j {
      if i + 5 <= |s| {
        assert s[i..i + 5][0] == s[i];
      }
      SearchSkips(s, i + 1, j);
    }
  }

  /** A run of `cls` that stops before a character outside `cls` is the longest one. */
  lemma {:induction false} RunEnds(s: string, i: nat, j: nat, cls: CharClass)
    requires i <= j <= |s| && AllIn(s, i, j, cls) && (j == |s| || !In(s[j], cls))
    ensures Run(s, i, cls) == j
    decreases j - i
  {
    if i < j {
      RunEnds(s, i + 1, j, cls);
    }
  }

  /** The lazy group stops at the first ']'. */
  lemma {:induction false} LazyCloseEnds(s: string, q: nat, c: nat)
    requires q <= c < |s| && s[c] == ']' && AllIn(s, q, c, GroupChars)
    ensures LazyClose(s, q) == Some(c)
    decreases c - q
  {
    if q < c {
      LazyCloseEnds(s, q + 1, c);
    }
  }

  /** With no '[' after `o + 1`, the greedy `.*` passes over every end later than `o`. */
  lemma {:induction false} GreedyTakes(s: string, i: nat, g: nat, e: nat, a: nat, p: nat, o: nat)
    requires a <= o <= p <= |s|
    requires forall k :: o + 1 < k < |s| ==> s[k] != '['
    ensures Greedy(s, i, g, e, a, p) == Greedy(s, i, g, e, a, o)
    decreases p - o
  {
    if o < p {
      if p + 2 <= |s| {
        assert s[p..p + 2][1] == s[p + 1];
      }
      GreedyTakes(s, i, g, e, a, p - 1, o);
    }
  }

  /** With neither ']' nor ':' in `(u, t]`, the class run backs off to `u` before anything matches. */
  lemma {:induction false} ClassThenTakes(s: string, i: nat, c: nat, t: nat, u: nat)
    requires c < u <= t < |s|
    requires forall k :: u < k <= t ==> s[k] != ']' && s[k] != ':'
    ensures ClassThen(s, i, c, t) == ClassThen(s, i, c, u)
    decreases t - u
  {
    if u < t {
      assert s[t] != ']' && s[t] != ':';
      assert Port(s, i, t).None?;
      assert CloseOpt(s, i, t).None?;
      ClassThenTakes(s, i, c, t - 1, u);
    }
  }

  /**
    * The text after group 1 of an access line, in positions: the port ends
    * at `q`, the bracket opens at `o` and closes at `c`, and no '[' follows
    * the opening one.
    */
  predicate TailAt(s: string, g: nat, q: nat, o: nat, c: nat) {
    g + 1 < q && q + 10 <= o && o + 2 <= c < |s| && s[g] == ':'
    && AllIn(s, g + 1, q, Digits)
    && OccursAt(s, " accepted ", q)
    && AllIn(s, q + 10, o, AnyButNewline)
    && OccursAt(s, " [", o)
    && AllIn(s, o + 2, c, GroupChars)
    && s[c] == ']'
    && forall k :: o + 1 < k < |s| ==> s[k] != '['
  }

  /** Past " accepted ", no newline comes before the closing ']'. */
  lemma TailRun(s: string, g: nat, q: nat, o: nat, c: nat)
    requires TailAt(s, g, q, o, c)
    ensures o <= Run(s, q + 10, AnyButNewline)
  {
    assert s[o..o + 2][0] == s[o] && s[o..o + 2][1] == s[o + 1];
    AllInMeans(s, q + 10, o, AnyButNewline);
    AllInMeans(s, o + 2, c, GroupChars);
    AllInMeans(s, q + 10, c + 1, AnyButNewline);
    RunBound(s, q + 10, c + 1, AnyButNewline);
  }

  /** ` accepted .* \[(.*?)\]` at `q` takes the last " [" and the first ']' after it. */
  lemma AcceptedAt(s: string, i: nat, g: nat, q: nat, o: nat, c: nat)
    requires TailAt(s, g, q, o, c)
    ensures Accepted(s, i, g, q) == Some(Span(i, g, q, o, c))
  {
    TailRun(s, g, q, o, c);
    GreedyTakes(s, i, g, q, q + 10, Run(s, q + 10, AnyButNewline), o);
    LazyCloseEnds(s, o + 2, c);
  }

  /** `:\d+` at `g` takes every digit, then the tail. */
  lemma PortAt(s: string, i: nat, g: nat, q: nat, o: nat, c: nat)
    requires TailAt(s, g, q, o, c)
    ensures Port(s, i, g) == Some(Span(i, g, q, o, c))
  {
    assert s[q..q + 10][0] == s[q];
    RunEnds(s, g + 1, q, Digits);
    AcceptedAt(s, i, g, q, o, c);
  }

  /** Group 1 without brackets: the pattern anchored at `i` ends group 1 at the ':'. */
  lemma PlainAt(s: string, i: nat, g: nat, q: nat, o: nat, c: nat)
    requires TailAt(s, g, q, o, c)
    requires OccursAt(s, "from ", i) && i + 5 < g && AllIn(s, i + 5, g, AddrChars)
    ensures MatchAt(s, i) == Some(Span(i, g, q, o, c))
  {
    var a := i + 5;
    assert s[q..q + 10][0] == s[q];
    AllInMeans(s, a, g, AddrChars);
    AllInMeans(s, g + 1, q, Digits);
    AllInMeans(s, a, q, AddrChars);
    RunEnds(s, a, q, AddrChars);
    ClassThenTakes(s, i, a, q, g);
    PortAt(s, i, g, q, o, c);
  }

  /** Group 1 in brackets: the pattern anchored at `i` takes both brackets into group 1. */
  lemma BracketAt(s: string, i: nat, g: nat, q: nat, o: nat, c: nat)
    requires TailAt(s, g, q, o, c)
    requires OccursAt(s, "from ", i) && i + 7 < g && s[i + 5] == '[' && AllIn(s, i + 6, g - 1, AddrChars) && s[g - 1] == ']'
    ensures MatchAt(s, i) == Some(Span(i, g, q, o, c))
  {
    var m, u := Span(i, g, q, o, c), g - 1;
    RunEnds(s, i + 6, u, AddrChars);
    PortAt(s, i, g, q, o, c);
    assert CloseOpt(s, i, u) == Some(m);
    assert ClassThen(s, i, i + 6, u) == Some(m);
    assert Class(s, i, i + 6) == Some(m);
    assert OpenOpt(s, i, i + 5) == Some(m);
  }

  /**
    * An access line: free text, "from ", group 1 `g`, ':', the port, " accepted ",
    * the target `x`, " [", group 2 `t`, the closing ']', and the rest of the line.
    */
  function AccessLine(pre: string, g: string, port: string, x: string, t: string, rest: string): string {
    pre + ("from " + (g + (":" + (port + (" accepted " + (x + (" [" + (t + ("]" + rest)))))))))
  }

  /** Every character of `a` is of `cls`. */
  predicate Every(a: string, cls: CharClass) {
    AllIn(a, 0, |a|, cls)
  }

  /** The text from `n` on is `a` then `b`, and `b` starts at `m`. */
  lemma Split2(s: string, n: nat, m: nat, a: string, b: string)
    requires n <= |s| && s[n..] == a + b && m == n + |a|
    ensures m <= |s| && s[n..m] == a && s[m..] == b
  {
    assert forall k :: 0 <= k < |a| ==> s[n..m][k] == (a + b)[k];
    var r := s[m..];
    assert forall k :: 0 <= k < |r| ==> r[k] == (a + b)[|a| + k];
  }

  /** The characters of a piece of the text are the piece's. */
  lemma EveryPiece(s: string, c: nat, m: nat, a: string, cls: CharClass)
    requires c <= m <= |s| && s[c..m] == a && Every(a, cls)
    ensures forall k :: c <= k < m ==> In(s[k], cls)
  {
    AllInMeans(a, 0, |a|, cls);
    forall k | c <= k < m
      ensures In(s[k], cls)
    {
      assert s[k] == a[k - c];
    }
  }

  /** A piece of the text without `ch` leaves the text without `ch` there. */
  lemma AvoidPiece(s: string, c: nat, m: nat, a: string, ch: char)
    requires c <= m <= |s| && s[c..m] == a && !Contains(a, [ch])
    ensures forall k :: c <= k < m ==> s[k] != ch
  {
    forall k | c <= k < m
      ensures s[k] != ch
    {
      assert s[k] == a[k - c];
      if a[k - c] == ch {
        assert a[k - c..k - c + 1] == [ch];
        assert OccursAt(a, [ch], k - c);
      }
    }
  }

  /**
    * From `q` on: " accepted ", text without newlines up to `o`, " [", group 2
    * (no ']' or newline) up to the ']' at `c`, and no '[' after the opening one.
    */
  predicate TailFrom(s: string, q: nat, o: nat, c: nat) {
    q + 10 <= o && o + 2 <= c < |s|
    && OccursAt(s, " accepted ", q)
    && (forall k :: q + 10 <= k < o ==> In(s[k], AnyButNewline))
    && OccursAt(s, " [", o)
    && (forall k :: o + 2 <= k < c ==> In(s[k], GroupChars))
    && s[c] == ']'
    && (forall k :: o + 1 < k < |s| ==> s[k] != '[')
  }

  /** The positions of an access line: group 1 is `s[i + 5..e]`, the port `s[e + 1..q]`, the bracket opens at `o` and closes at `c`. */
  predicate LineAt(s: string, i: nat, e: nat, q: nat, o: nat, c: nat) {
    TailFrom(s, q, o, c) && i + 5 < e && e + 1 < q
    && (forall k :: 0 <= k < i ==> s[k] != 'f')
    && OccursAt(s, "from ", i)
    && s[e] == ':'
    && (forall k :: e + 1 <= k < q ==> In(s[k], Digits))
  }

  /** LineAt in terms of AllIn. */
  lemma TailOf(s: string, i: nat, e: nat, q: nat, o: nat, c: nat)
    requires LineAt(s, i, e, q, o, c)
    ensures TailAt(s, e, q, o, c)
  {
    AllInMeans(s, e + 1, q, Digits);
    AllInMeans(s, q + 10, o, AnyButNewline);
    AllInMeans(s, o + 2, c, GroupChars);
  }

  /** A match at `i` with no 'f' before it is the one the search takes. */
  lemma SearchAt(s: string, i: nat, m: Span)
    requires i <= |s| && (forall k :: 0 <= k < i ==> s[k] != 'f') && MatchAt(s, i) == Some(m)
    ensures Search(s, 0) == Some(m)
  {
    SearchSkips(s, 0, i);
  }

  /** The groups FindSubmatch returns are those of the match the search takes. */
  lemma GroupsOf(s: string, m: Span)
    requires Search(s, 0) == Some(m)
    ensures FindSubmatch(s) == Some((s[m.start + 5..m.addrEnd], s[m.open + 2..m.close]))
  {
  }

  /** A match at `i` with no 'f' before it is the one FindSubmatch takes. */
  lemma FoundAt(s: string, i: nat, m: Span)
    requires i <= |s| && (forall k :: 0 <= k < i ==> s[k] != 'f') && MatchAt(s, i) == Some(m)
    ensures FindSubmatch(s) == Some((s[m.start + 5..m.addrEnd], s[m.open + 2..m.close]))
  {
    SearchAt(s, i, m);
    GroupsOf(s, m);
  }

  /** An access line whose group 1 has no brackets matches at its "from ". */
  lemma PlainLine(s: string, i: nat, e: nat, q: nat, o: nat, c: nat)
    requires LineAt(s, i, e, q, o, c) && forall k :: i + 5 <= k < e ==> In(s[k], AddrChars)
    ensures MatchAt(s, i) == Some(Span(i, e, q, o, c))
  {
    TailOf(s, i, e, q, o, c);
    AllInMeans(s, i + 5, e, AddrChars);
    PlainAt(s, i, e, q, o, c);
  }

  /** An access line whose group 1 is bracketed matches at its "from ". */
  lemma BracketLine(s: string, i: nat, e: nat, q: nat, o: nat, c: nat)
    requires LineAt(s, i, e, q, o, c) && i + 7 < e && s[i + 5] == '[' && s[e - 1] == ']'
    requires forall k :: i + 6 <= k < e - 1 ==> In(s[k], AddrChars)
    ensures MatchAt(s, i) == Some(Span(i, e, q, o, c))
  {
    TailOf(s, i, e, q, o, c);
    AllInMeans(s, i + 6, e - 1, AddrChars);
    BracketAt(s, i, e, q, o, c);
  }

  /** The tail of an access line, put together from its pieces, in positions. */
  lemma TailPieces(s: string, q: nat, x: string, t: string, rest: string)
    requires q <= |s| && s[q..] == " accepted " + (x + (" [" + (t + ("]" + rest))))
    requires Every(x, AnyButNewline)
    requires Every(t, GroupChars) && !Contains(t, "[") && !Contains(rest, "[")
    ensures TailFrom(s, q, q + 10 + |x|, q + 10 + |x| + 2 + |t|)
    ensures s[q + 10 + |x| + 2..q + 10 + |x| + 2 + |t|] == t
  {
    var o := q + 10 + |x|;
    Split2(s, q, q + 10, " accepted ", x + (" [" + (t + ("]" + rest))));
    Split2(s, q + 10, o, x, " [" + (t + ("]" + rest)));
    EveryPiece(s, q + 10, o, x, AnyButNewline);
    BracketPieces(s, o, t, rest);
  }

  /** The bracketed part of an access line and the rest of the line, in positions. */
  lemma BracketPieces(s: string, o: nat, t: string, rest: string)
    requires o <= |s| && s[o..] == " [" + (t + ("]" + rest))
    requires Every(t, GroupChars) && !Contains(t, "[") && !Contains(rest, "[")
    ensures o + 2 + |t| < |s| && OccursAt(s, " [", o) && s[o + 2 + |t|] == ']'
    ensures forall k :: o + 2 <= k < o + 2 + |t| ==> In(s[k], GroupChars)
    ensures forall k :: o + 1 < k < |s| ==> s[k] != '['
    ensures s[o + 2..o + 2 + |t|] == t
  {
    var c := o + 2 + |t|;
    Split2(s, o, o + 2, " [", t + ("]" + rest));
    Split2(s, o + 2, c, t, "]" + rest);
    Split2(s, c, c + 1, "]", rest);
    assert s[c] == s[c..c + 1][0];
    EveryPiece(s, o + 2, c, t, GroupChars);
    AvoidPiece(s, o + 2, c, t, '[');
    assert s[c + 1..|s|] == s[c + 1..];
    AvoidPiece(s, c + 1, |s|, rest, '[');
  }

  /** From `e` on: ':', the port digits up to `q`, and the tail. */
  predicate PortFrom(s: string, e: nat, q: nat, o: nat, c: nat) {
    TailFrom(s, q, o, c) && e + 1 < q && s[e] == ':' && forall k :: e + 1 <= k < q ==> In(s[k], Digits)
  }

  /** Up to `e`: text without 'f', then "from " at `i` and group 1 `g`. */
  predicate HeadAt(s: string, i: nat, e: nat, g: string) {
    i + 5 <= e <= |s| && (forall k :: 0 <= k < i ==> s[k] != 'f') && OccursAt(s, "from ", i) && s[i + 5..e] == g
  }

  /** The head of an access line, put together from its pieces, in positions. */
  lemma HeadPieces(pre: string, g: string, r: string)
    requires !Contains(pre, "f")
    ensures var s := pre + ("from " + (g + r));
      HeadAt(s, |pre|, |pre| + 5 + |g|, g) && s[|pre| + 5 + |g|..] == r
  {
    var s, i := pre + ("from " + (g + r)), |pre|;
    Split2(s, 0, i, pre, "from " + (g + r));
    Split2(s, i, i + 5, "from ", g + r);
    Split2(s, i + 5, i + 5 + |g|, g, r);
    AvoidPiece(s, 0, i, pre, 'f');
  }

  /** A bracketed piece of the text. */
  lemma BracketPiece(s: string, c: nat, m: nat, a: string)
    requires c <= m <= |s| && s[c..m] == "[" + a + "]"
    ensures c + 2 + |a| == m && s[c] == '[' && s[m - 1] == ']' && s[c + 1..m - 1] == a
  {
    assert s[c..m][0] == s[c] && s[c..m][|a| + 1] == s[m - 1];
    var inner := s[c + 1..m - 1];
    assert forall k :: 0 <= k < |inner| ==> inner[k] == s[c..m][k + 1];
  }

  /** An access line, in positions, matches at its "from ". */
  lemma FoundLine(s: string, i: nat, e: nat, q: nat, o: nat, c: nat, a: string, bracketed: bool)
    requires PortFrom(s, e, q, o, c) && HeadAt(s, i, e, if bracketed then "[" + a + "]" else a)
    requires a != [] && Every(a, AddrChars)
    ensures MatchAt(s, i) == Some(Span(i, e, q, o, c))
  {
    assert LineAt(s, i, e, q, o, c);
    if bracketed {
      BracketPiece(s, i + 5, e, a);
      EveryPiece(s, i + 6, e - 1, a, AddrChars);
      BracketLine(s, i, e, q, o, c);
    } else {
      EveryPiece(s, i + 5, e, a, AddrChars);
      PlainLine(s, i, e, q, o, c);
    }
  }

  /** The port of an access line, put together from its pieces, in positions. */
  lemma PortPieces(s: string, e: nat, port: string, r: string)
    requires e <= |s| && s[e..] == ":" + (port + (" accepted " + r))
    requires port != [] && Every(port, Digits)
    ensures e + 1 + |port| <= |s| && s[e] == ':'
    ensures forall k :: e + 1 <= k < e + 1 + |port| ==> In(s[k], Digits)
    ensures s[e + 1 + |port|..] == " accepted " + r
  {
    var q := e + 1 + |port|;
    Split2(s, e, e + 1, ":", port + (" accepted " + r));
    assert s[e] == s[e..e + 1][0];
    Split2(s, e + 1, q, port, " accepted " + r);
    EveryPiece(s, e + 1, q, port, Digits);
  }

  /**
    * The positions of an access line from group 1 on: the port ends at `q`,
    * the bracket opens at `o` and closes at `c`.
    */
  lemma LinePositions(s: string, e: nat, port: string, x: string, t: string, rest: string) returns (q: nat, o: nat, c: nat)
    requires e <= |s| && s[e..] == ":" + (port + (" accepted " + (x + (" [" + (t + ("]" + rest))))))
    requires port != [] && Every(port, Digits)
    requires Every(x, AnyButNewline)
    requires Every(t, GroupChars) && !Contains(t, "[") && !Contains(rest, "[")
    ensures PortFrom(s, e, q, o, c) && s[o + 2..c] == t
  {
    q := e + 1 + |port|;
    o := q + 10 + |x|;
    c := o + 2 + |t|;
    PortPieces(s, e, port, x + (" [" + (t + ("]" + rest))));
    TailPieces(s, q, x, t, rest);
  }

  /** The groups of a match the search takes. */
  lemma GroupsAt(s: string, i: nat, m: Span, g: string, t: string)
    requires i <= |s| && (forall k :: 0 <= k < i ==> s[k] != 'f') && MatchAt(s, i) == Some(m)
    requires m.start + 5 <= m.addrEnd && m.open + 2 <= m.close <= |s|
    requires s[m.start + 5..m.addrEnd] == g && s[m.open + 2..m.close] == t
    ensures FindSubmatch(s) == Some((g, t))
  {
    FoundAt(s, i, m);
  }

  /** An access line, in positions, has the groups FindSubmatch returns. */
  lemma LineGroups(s: string, i: nat, e: nat, q: nat, o: nat, c: nat, a: string, bracketed: bool, t: string)
    requires PortFrom(s, e, q, o, c) && HeadAt(s, i, e, if bracketed then "[" + a + "]" else a)
    requires a != [] && Every(a, AddrChars) && s[o + 2..c] == t
    ensures FindSubmatch(s) == Some((if bracketed then "[" + a + "]" else a, t))
  {
    FoundLine(s, i, e, q, o, c, a, bracketed);
    GroupsAt(s, i, Span(i, e, q, o, c), if bracketed then "[" + a + "]" else a, t);
  }

  /**
    * FindSubmatch on an access line returns its group 1 and group 2, when the
    * text before "from " has no 'f', group 1 is a (possibly bracketed)
    * non-empty run of `[a-fA-F0-9:.]`, the port is digits, the target has no
    * newline, group 2 has no '[', ']' or newline, and the rest of the line
    * after the closing ']' has no '['.
    */
  lemma FindAccessLine(pre: string, a: string, bracketed: bool, port: string, x: string, t: string, rest: string)
    requires !Contains(pre, "f")
    requires a != [] && Every(a, AddrChars)
    requires port != [] && Every(port, Digits)
    requires Every(x, AnyButNewline)
    requires Every(t, GroupChars) && !Contains(t, "[")
    requires !Contains(rest, "[")
    ensures var g := if bracketed then "[" + a + "]" else a;
      FindSubmatch(AccessLine(pre, g, port, x, t, rest)) == Some((g, t))
  {
    var g := if bracketed then "[" + a + "]" else a;
    var r := ":" + (port + (" accepted " + (x + (" [" + (t + ("]" + rest))))));
    var s := pre + ("from " + (g + r));
    HeadPieces(pre, g, r);
    var i, e := |pre|, |pre| + 5 + |g|;
    var q, o, c := LinePositions(s, e, port, x, t, rest);
    LineGroups(s, i, e, q, o, c, a, bracketed, t);
  }
}
