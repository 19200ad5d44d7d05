/** The boot-log IP scanner (`showCurrentIP` in tasmotizer.py). Each time the
    serial port has data, the previous chunk and the new chunk are joined,
    every "\r\n" is removed, and the text is searched for
    `IP address \d{1,3}\.\d{1,3}\.\d{1,3}\.\d{1,3}`. On a match the address is
    shown and the port closed; otherwise only the new chunk is kept for the
    next round. */
module IpScanner {
  import opened Strings

  /** The four digit groups of a match. */
  datatype Quad = Quad(a: string, b: string, c: string, d: string)

  function QuadText(q: Quad): string {
    q.a + "." + q.b + "." + q.c + "." + q.d
  }

  /** One `\d{1,3}`. */
  predicate Group(g: string) {
    1 <= |g| <= 3 && AllDigits(g)
  }

  predicate ValidQuad(q: Quad) {
    Group(q.a) && Group(q.b) && Group(q.c) && Group(q.d)
  }

  const Prefix: string := "IP address "

  /** The pattern matches at position `i` of `s` with group text `q`: the
      literal prefix and a dotted quad of 1-3 digit groups start there. */
  predicate MatchesAt(s: string, i: nat, q: Quad) {
    i <= |s| && ValidQuad(q) && Prefix + QuadText(q) <= s[i..]
  }

  /** The regex engine's choice among the matches at one position: the last
      `\d{1,3}` is greedy, so it stops only at 3 digits or before a non-digit. */
  predicate Greedy(s: string, i: nat, q: Quad)
    requires i <= |s|
  {
    var t := s[i..];
    var e := |Prefix| + |QuadText(q)|;
    |q.d| == 3 || e >= |t| || !IsDigit(t[e])
  }

  /** The number of digits `u` starts with. */
  function LeadingDigits(u: string): (n: nat)
    ensures n <= |u| && AllDigits(u[..n])
    ensures n == |u| || !IsDigit(u[n])
  {
    if |u| > 0 && IsDigit(u[0]) then
      var n := 1 + LeadingDigits(u[1..]);
      assert u[..n] == [u[0]] + u[1..][..n - 1];
      n
    else 0
  }

  /** `\d{1,3}\.` at the start of `u`: the group and what follows the dot.
      Backtracking cannot help here, since a shorter group would be followed
      by a digit rather than the dot. */
  function DotGroup(u: string): Option<(string, string)> {
    var k := LeadingDigits(u);
    if 1 <= k <= 3 && k < |u| && u[k] == '.' then Some((u[..k], u[k + 1..]))
    else None
  }

  /** What `DotGroup` splits off is a group, and the dot and the rest follow it. */
  lemma DotGroupSound(u: string)
    requires DotGroup(u).Some?
    ensures var (g, rest) := DotGroup(u).value;
      Group(g) && u == g + "." + rest
  {
    var k := LeadingDigits(u);
    assert u == u[..k] + "." + u[k + 1..];
  }

  /** The final greedy `\d{1,3}` at the start of `u`. */
  function LastGroup(u: string): Option<string> {
    var run := LeadingDigits(u);
    var k := if run < 3 then run else 3;
    if k == 0 then None else Some(u[..k])
  }

  /** What `LastGroup` takes is a group at the start of `u`, and it stops only
      at three digits or before a non-digit. */
  lemma LastGroupSound(u: string)
    requires LastGroup(u).Some?
    ensures var g := LastGroup(u).value;
      && Group(g) && g <= u
      && (|g| == 3 || |g| == |u| || !IsDigit(u[|g|]))
  {
    var run := LeadingDigits(u);
    var k := if run < 3 then run else 3;
    assert AllDigits(u[..k]) by {
      assert forall t :: 0 <= t < k ==> u[..k][t] == u[..run][t];
    }
  }

  /** The dotted quad at the start of `u`, if there is one. */
  function QuadAtStart(u: string): Option<Quad> {
    var ga := DotGroup(u);
    if ga.None? then None else
    var gb := DotGroup(ga.value.1);
    if gb.None? then None else
    var gc := DotGroup(gb.value.1);
    if gc.None? then None else
    var gd := LastGroup(gc.value.1);
    if gd.None? then None else
    Some(Quad(ga.value.0, gb.value.0, gc.value.0, gd.value))
  }

  /** The match at position `i`, if the pattern matches there. */
  function IpAt(s: string, i: nat): Option<Quad>
    requires i <= |s|
  {
    if Prefix <= s[i..] then QuadAtStart(s[i + |Prefix|..]) else None
  }

  lemma {:induction false} LeadingDigitsExact(g: string, w: string)
    requires AllDigits(g)
    requires |w| == 0 || !IsDigit(w[0])
    ensures LeadingDigits(g + w) == |g|
    decreases |g|
  {
    if |g| > 0 {
      assert (g + w)[1..] == g[1..] + w;
      LeadingDigitsExact(g[1..], w);
    } else {
      assert g + w == w;
    }
  }

  lemma {:induction false} LeadingDigitsAtLeast(g: string, w: string)
    requires AllDigits(g)
    ensures LeadingDigits(g + w) >= |g|
    decreases |g|
  {
    if |g| > 0 {
      assert (g + w)[1..] == g[1..] + w;
      LeadingDigitsAtLeast(g[1..], w);
    }
  }

  lemma DotGroupOf(g: string, w: string)
    requires Group(g)
    ensures DotGroup(g + "." + w) == Some((g, w))
  {
    var u := g + "." + w;
    assert u == g + ("." + w);
    LeadingDigitsExact(g, "." + w);
    assert u[..|g|] == g && u[|g| + 1..] == w;
  }

  lemma LastGroupOf(d: string, w: string)
    requires Group(d)
    ensures LastGroup(d + w).Some? && d <= LastGroup(d + w).value
    ensures |d| == 3 || |w| == 0 || !IsDigit(w[0]) ==> LastGroup(d + w) == Some(d)
  {
    var u := d + w;
    LeadingDigitsAtLeast(d, w);
    if |d| < 3 && (|w| == 0 || !IsDigit(w[0])) {
      LeadingDigitsExact(d, w);
    }
    assert u[..|d|] == d;
  }

  /** What `QuadAtStart` reports is a dotted quad the text starts with, and
      its last group is greedy. */
  lemma QuadAtStartSound(u: string)
    requires QuadAtStart(u).Some?
    ensures var q := QuadAtStart(u).value;
      && ValidQuad(q) && QuadText(q) <= u
      && (|q.d| == 3 || |QuadText(q)| == |u| || !IsDigit(u[|QuadText(q)|]))
  {
    var q := QuadAtStart(u).value;
    var u1 := DotGroup(u).value.1;
    var u2 := DotGroup(u1).value.1;
    var u3 := DotGroup(u2).value.1;
    DotGroupSound(u);
    DotGroupSound(u1);
    DotGroupSound(u2);
    LastGroupSound(u3);
    assert u == q.a + "." + u1;
    assert u1 == q.b + "." + u2;
    assert u2 == q.c + "." + u3;
    var w := u3[|q.d|..];
    assert u3 == q.d + w;
    QuadTextThen(q, w);
  }

  /** Regrouping of `QuadText(q) + w` as the parser consumes it. */
  lemma QuadTextThen(q: Quad, w: string)
    ensures QuadText(q) + w == q.a + "." + (q.b + "." + (q.c + "." + (q.d + w)))
    ensures |QuadText(q)| < |QuadText(q) + w| ==> (QuadText(q) + w)[|QuadText(q)|] == w[0]
  {
  }

  /** A text that starts with a dotted quad is recognised: same first three
      groups, the last one extended greedily, and exactly the given quad when
      it already is greedy. */
  lemma QuadAtStartComplete(q: Quad, w: string)
    requires ValidQuad(q)
    ensures QuadAtStart(QuadText(q) + w).Some?
    ensures var r := QuadAtStart(QuadText(q) + w).value;
      r.a == q.a && r.b == q.b && r.c == q.c && q.d <= r.d
    ensures |q.d| == 3 || |w| == 0 || !IsDigit(w[0]) ==> QuadAtStart(QuadText(q) + w) == Some(q)
  {
    var u3 := q.d + w;
    var u2 := q.c + "." + u3;
    var u1 := q.b + "." + u2;
    QuadTextThen(q, w);
    DotGroupOf(q.a, u1);
    DotGroupOf(q.b, u2);
    DotGroupOf(q.c, u3);
    LastGroupOf(q.d, w);
  }

  /** What `IpAt` reports is a match, and the greedy one. */
  lemma IpAtSound(s: string, i: nat)
    requires i <= |s| && IpAt(s, i).Some?
    ensures MatchesAt(s, i, IpAt(s, i).value) && Greedy(s, i, IpAt(s, i).value)
  {
    var q := IpAt(s, i).value;
    var u := s[i + |Prefix|..];
    QuadAtStartSound(u);
    Behind(s, i, Prefix, QuadText(q), u);
  }

  /** Generic step: a text at `i` starting with `p` and then `u`, where `u`
      starts with `x`, starts with `p + x`; positions after `p` map into `u`. */
  lemma Behind(s: string, i: nat, p: string, x: string, u: string)
    requires i <= |s| && p <= s[i..] && u == s[i + |p|..] && x <= u
    ensures p + x <= s[i..]
    ensures forall k :: |p| <= k < |s| - i ==> s[i..][k] == u[k - |p|]
  {
  }

  /** Whenever the pattern matches at `i`, `IpAt` finds a match there with the
      same first three groups, whose last group extends the given one; for the
      greedy match it is exactly that match. */
  lemma IpAtComplete(s: string, i: nat, q: Quad)
    requires MatchesAt(s, i, q)
    ensures IpAt(s, i).Some?
    ensures var r := IpAt(s, i).value;
      r.a == q.a && r.b == q.b && r.c == q.c && q.d <= r.d
    ensures Greedy(s, i, q) ==> IpAt(s, i) == Some(q)
  {
    var w := s[i + |Prefix| + |QuadText(q)|..];
    IpAtIsQuadThen(s, i, q);
    GreedyBeforeRest(s, i, q);
    QuadAtStartComplete(q, w);
  }

  /** Where the pattern matches, `IpAt` parses the quad's text followed by the
      rest of the line. */
  lemma IpAtIsQuadThen(s: string, i: nat, q: Quad)
    requires MatchesAt(s, i, q)
    ensures IpAt(s, i) == QuadAtStart(QuadText(q) + s[i + |Prefix| + |QuadText(q)|..])
  {
    MatchSplit(s, i, Prefix, QuadText(q));
  }

  /** Greediness of a match is a condition on the rest of the line. */
  lemma GreedyBeforeRest(s: string, i: nat, q: Quad)
    requires MatchesAt(s, i, q)
    ensures var w := s[i + |Prefix| + |QuadText(q)|..];
      Greedy(s, i, q) ==> |q.d| == 3 || |w| == 0 || !IsDigit(w[0])
  {
    MatchSplit(s, i, Prefix, QuadText(q));
  }

  /** Where `p + x` starts at `i`, the text after `p` is `x` followed by the
      rest, whose first character is the one right after the match. */
  lemma MatchSplit(s: string, i: nat, p: string, x: string)
    requires i <= |s| && p + x <= s[i..]
    ensures p <= s[i..]
    ensures s[i + |p|..] == x + s[i + |p| + |x|..]
    ensures |p| + |x| < |s[i..]| ==> s[i..][|p| + |x|] == s[i + |p| + |x|..][0]
  {
    assert s[i..][..|p|] == (p + x)[..|p|] == p;
    assert s[i + |p|..][..|x|] == (p + x)[|p|..] == x;
  }

  /** The leftmost position from `i` on where the pattern matches. */
  function SearchFrom(s: string, i: nat): (r: Option<nat>)
    requires i <= |s|
    ensures r.Some? ==> i <= r.value <= |s| && IpAt(s, r.value).Some?
    decreases |s| - i
  {
    if IpAt(s, i).Some? then Some(i)
    else if i == |s| then None
    else SearchFrom(s, i + 1)
  }

  /** No position before the one `SearchFrom` reports matches, and when it
      reports none, no position from `i` on does. */
  lemma {:induction false} SearchFromLeftmost(s: string, i: nat)
    requires i <= |s|
    ensures SearchFrom(s, i).Some? ==> forall j :: i <= j < SearchFrom(s, i).value ==> IpAt(s, j).None?
    ensures SearchFrom(s, i).None? ==> forall j :: i <= j <= |s| ==> IpAt(s, j).None?
    decreases |s| - i
  {
    if IpAt(s, i).Some? {
      assert SearchFrom(s, i) == Some(i);
    } else if i == |s| {
      assert SearchFrom(s, i) == None;
    } else {
      var r := SearchFrom(s, i + 1);
      assert SearchFrom(s, i) == r;
      SearchFromLeftmost(s, i + 1);
      if r.Some? {
        forall j | i <= j < r.value
          ensures IpAt(s, j).None?
        {
          if j > i {}
        }
      } else {
        forall j | i <= j <= |s|
          ensures IpAt(s, j).None?
        {
          if j > i {}
        }
      }
    }
  }

  /** `re.search` with the IP pattern, giving the `ip` group. */
  function Search(s: string): Option<Quad> {
    match SearchFrom(s, 0)
    case Some(i) => IpAt(s, i)
    case None => None
  }

  /** `re.search` semantics: a reported address is the greedy match at the
      leftmost position where the pattern matches at all; no report means the
      pattern matches nowhere. */
  lemma SearchIsLeftmostMatch(s: string)
    ensures Search(s).Some? ==>
      exists i :: 0 <= i <= |s| && MatchesAt(s, i, Search(s).value) && Greedy(s, i, Search(s).value)
        && forall j, q :: 0 <= j < i ==> !MatchesAt(s, j, q)
    ensures Search(s).None? ==> forall i, q :: !MatchesAt(s, i, q)
  {
    SearchFromLeftmost(s, 0);
    match SearchFrom(s, 0)
    case Some(i) =>
      IpAtSound(s, i);
      forall j, q | 0 <= j < i
        ensures !MatchesAt(s, j, q)
      {
        if MatchesAt(s, j, q) {
          IpAtComplete(s, j, q);
        }
      }
    case None =>
      forall i, q | MatchesAt(s, i, q)
        ensures false
      {
        IpAtComplete(s, i, q);
      }
  }

  /** `str.replace("\r\n", "")`: occurrences are removed left to right and
      never overlap. */
  function RemoveCrLf(s: string): (r: string)
    ensures |r| <= |s|
  {
    if |s| >= 2 && s[0] == '\r' && s[1] == '\n' then RemoveCrLf(s[2..])
    else if |s| == 0 then ""
    else [s[0]] + RemoveCrLf(s[1..])
  }

  /** A line break between two pieces of text disappears without affecting
      either piece, whatever they end or start with. */
  lemma {:induction false} LineBreakVanishes(x: string, y: string)
    ensures RemoveCrLf(x + "\r\n" + y) == RemoveCrLf(x) + RemoveCrLf(y)
    decreases |x|
  {
    var s := x + "\r\n" + y;
    if |x| == 0 {
      assert s[2..] == y;
    } else if |x| >= 2 && x[0] == '\r' && x[1] == '\n' {
      assert s[2..] == x[2..] + "\r\n" + y;
      LineBreakVanishes(x[2..], y);
    } else {
      assert s[1..] == x[1..] + "\r\n" + y;
      LineBreakVanishes(x[1..], y);
    }
  }

  /** Text without carriage returns passes through unchanged. */
  lemma {:induction false} NoCarriageReturnUnchanged(s: string)
    requires '\r' !in s
    ensures RemoveCrLf(s) == s
    decreases |s|
  {
    if |s| > 0 {
      assert '\r' !in s[1..];
      NoCarriageReturnUnchanged(s[1..]);
    }
  }

  /** The scanner's state: the carried chunk, whether the port is open, and
      the status-bar text. */
  datatype Scanner = Scanner(previous: string, portOpen: bool, status: string)

  /** One `readyRead` of `chunk`. */
  function OnReadyRead(sc: Scanner, chunk: string): (sc': Scanner)
    ensures
      var found := Search(RemoveCrLf(sc.previous + chunk));
      && (found.Some? ==> sc' == sc.(portOpen := false, status := "Device IP: " + QuadText(found.value)))
      && (found.None? ==> sc' == sc.(previous := chunk))
  {
    match Search(RemoveCrLf(sc.previous + chunk))
    case Some(q) => sc.(portOpen := false, status := "Device IP: " + QuadText(q))
    case None => sc.(previous := chunk)
  }

  /** A line split across two consecutive chunks, even at its line break, is
      found: the report is the leftmost match of the joined text. */
  lemma SplitAcrossTwoChunks(sc: Scanner, chunk: string, i: nat, q: Quad)
    requires MatchesAt(RemoveCrLf(sc.previous + chunk), i, q)
    ensures !OnReadyRead(sc, chunk).portOpen
    ensures "Device IP: " <= OnReadyRead(sc, chunk).status
  {
    SearchIsLeftmostMatch(RemoveCrLf(sc.previous + chunk));
  }

  /** Text too short to hold the prefix and four one-digit groups never matches. */
  lemma ShortTextNeverMatches(s: string)
    requires |s| < |Prefix| + 7
    ensures Search(s).None?
  {
    match SearchFrom(s, 0)
    case None =>
    case Some(i) =>
      IpAtSound(s, i);
      assert false;
  }

  /** A chunk that, joined to the carried one, is too short to match and holds
      no carriage return only replaces the carried chunk. */
  lemma QuietChunk(sc: Scanner, chunk: string)
    requires '\r' !in sc.previous && '\r' !in chunk
    requires |sc.previous + chunk| < |Prefix| + 7
    ensures OnReadyRead(sc, chunk) == sc.(previous := chunk)
  {
    var s := sc.previous + chunk;
    assert '\r' !in s by {
      forall i | 0 <= i < |s|
        ensures s[i] != '\r'
      {
        if i < |sc.previous| { assert s[i] == sc.previous[i]; }
        else { assert s[i] == chunk[i - |sc.previous|]; }
      }
    }
    NoCarriageReturnUnchanged(s);
    ShortTextNeverMatches(s);
  }

  /** Only one chunk is carried: a line spread over three chunks is missed. */
  lemma ThreeChunkSplitIsMissed()
    ensures
      var s1 := OnReadyRead(Scanner("", true, ""), "IP ad");
      var s2 := OnReadyRead(s1, "dress 1");
      var s3 := OnReadyRead(s2, ".2.3.4");
      s3.portOpen && s3.previous == ".2.3.4"
  {
    var c1, c2, c3 := "IP ad", "dress 1", ".2.3.4";
    assert '\r' !in c1 && '\r' !in c2 && '\r' !in c3;
    assert |Prefix| == 11;
    var s0 := Scanner("", true, "");
    QuietChunk(s0, c1);
    var s1 := s0.(previous := c1);
    QuietChunk(s1, c2);
    var s2 := s1.(previous := c2);
    QuietChunk(s2, c3);
  }
}
