/** Corpus analysis, cmd/analyse/analyse.go: scan every SVG file of the
    asset directory for colour tokens and tally, per colour, how many files
    use it and, per file, how many distinct colours it uses. Listing the
    directory and reading the files are inputs of the model. */
module Analysis {
  import opened Outcomes

  // ---------------------------------------------------------------------
  // removeDuplicates

  /** The elements of `s` at their first occurrence, in input order. */
  function Dedup<K(==)>(s: seq<K>): seq<K>
  {
    if s == [] then []
    else if s[|s| - 1] in s[..|s| - 1] then Dedup(s[..|s| - 1])
    else Dedup(s[..|s| - 1]) + [s[|s| - 1]]
  }

  predicate Distinct<K(==)>(s: seq<K>) {
    forall i, j :: 0 <= i < j < |s| ==> s[i] != s[j]
  }

  /** removeDuplicates: an `encountered` set and an append for every
      element not seen before. */
  method RemoveDuplicates<K(==)>(elements: seq<K>) returns (result: seq<K>)
    ensures result == Dedup(elements)
  {
    var encountered: map<K, bool> := map[];
    result := [];
    for inx := 0 to |elements|
      invariant result == Dedup(elements[..inx])
      invariant forall x :: x in encountered <==> x in elements[..inx]
      invariant forall x :: x in encountered ==> encountered[x]
    {
      var element := elements[inx];
      assert elements[..inx + 1][..inx] == elements[..inx];
      if element in encountered && encountered[element] {
        continue;
      }
      encountered := encountered[element := true];
      result := result + [element];
    }
    assert elements[..|elements|] == elements;
  }

  /** The result holds each element of the input once and nothing else. */
  lemma {:induction false} DedupElements<K>(s: seq<K>)
    ensures Distinct(Dedup(s))
    ensures forall x :: x in Dedup(s) <==> x in s
    ensures |Dedup(s)| <= |s|
    decreases |s|
  {
    if s != [] {
      var t := s[..|s| - 1];
      DedupElements(t);
      assert s == t + [s[|s| - 1]];
    }
  }

  /** A list without repetitions is left as it is. */
  lemma {:induction false} DedupOfDistinct<K>(s: seq<K>)
    requires Distinct(s)
    ensures Dedup(s) == s
    decreases |s|
  {
    if s != [] {
      var t := s[..|s| - 1];
      assert Distinct(t);
      DedupOfDistinct(t);
      assert s[|s| - 1] !in t;
      assert s == t + [s[|s| - 1]];
    }
  }

  /** removeDuplicates is idempotent. */
  lemma DedupIdempotent<K>(s: seq<K>)
    ensures Dedup(Dedup(s)) == Dedup(s)
  {
    DedupElements(s);
    DedupOfDistinct(Dedup(s));
  }

  /** The index of the first occurrence of `x` in `s`. */
  function FirstIndex<K(==)>(s: seq<K>, x: K): (k: nat)
    requires x in s
    ensures k < |s| && s[k] == x && x !in s[..k]
  {
    if s[0] == x then 0
    else
      var k := FirstIndex(s[1..], x);
      assert s[..k + 1] == [s[0]] + s[1..][..k];
      k + 1
  }

  lemma FirstIndexPrefix<K>(s: seq<K>, n: nat, x: K)
    requires n <= |s| && x in s[..n]
    ensures FirstIndex(s, x) == FirstIndex(s[..n], x)
  {
    var k := FirstIndex(s[..n], x);
    var j := FirstIndex(s, x);
    assert s[..n][..k] == s[..k];
    assert forall i :: 0 <= i < k ==> s[..k][i] == s[i];
    assert forall i :: 0 <= i < j ==> s[..j][i] == s[i];
  }

  /** The result lists the elements in the order of their first
      occurrences in the input. */
  lemma {:induction false} DedupFirstOccurrenceOrder<K>(s: seq<K>)
    ensures forall x :: x in Dedup(s) ==> x in s
    ensures forall i, j :: 0 <= i < j < |Dedup(s)| ==>
      FirstIndex(s, Dedup(s)[i]) < FirstIndex(s, Dedup(s)[j])
    decreases |s|
  {
    DedupElements(s);
    if s != [] {
      var n := |s| - 1;
      var t := s[..n];
      DedupFirstOccurrenceOrder(t);
      DedupElements(t);
      var d := Dedup(t);
      forall i | 0 <= i < |d| ensures FirstIndex(s, d[i]) == FirstIndex(t, d[i]) {
        FirstIndexPrefix(s, n, d[i]);
      }
      if s[n] !in t {
        assert s[..n] == t;
        assert FirstIndex(s, s[n]) == n;
      }
    }
  }

  // ---------------------------------------------------------------------
  // The colour scanner: the pattern "(#[a-f0-9]{3,8}|none)" found left to
  // right without overlaps, as regexp.FindAllStringSubmatch does

  predicate IsLowerHex(c: char) {
    '0' <= c <= '9' || 'a' <= c <= 'f'
  }

  /** The text of a colour: "none", or '#' and 3 to 8 lower-case hex
      digits. */
  predicate IsColourToken(t: string) {
    t == "none" || (4 <= |t| <= 9 && t[0] == '#' && forall i :: 1 <= i < |t| ==> IsLowerHex(t[i]))
  }

  /** How many lower-case hex digits follow from `i` on. */
  function HexRun(s: string, i: nat): (n: nat)
    requires i <= |s|
    ensures i + n <= |s|
    ensures forall k :: i <= k < i + n ==> IsLowerHex(s[k])
    ensures i + n < |s| ==> !IsLowerHex(s[i + n])
    decreases |s| - i
  {
    if i < |s| && IsLowerHex(s[i]) then 1 + HexRun(s, i + 1) else 0
  }

  /** A quoted colour `t` sits at `p`: a quote, `t`, and a quote. */
  predicate QuotedAt(s: string, p: nat, t: string) {
    p + |t| + 2 <= |s| && s[p] == '"' && s[p + 1..p + 1 + |t|] == t && s[p + 1 + |t|] == '"'
  }

  /** The colour of the match that starts at `p`, if one does. The hex
      digits are taken greedily, so a run of nine or more never matches. */
  function MatchAt(s: string, p: nat): (t: Option<string>)
    requires p <= |s|
    ensures t.Some? ==> IsColourToken(t.value) && QuotedAt(s, p, t.value)
  {
    if p + 2 > |s| || s[p] != '"' then None
    else if p + 6 <= |s| && s[p + 1] == 'n' && s[p + 2] == 'o' && s[p + 3] == 'n' && s[p + 4] == 'e'
            && s[p + 5] == '"' then
      assert s[p + 1..p + 5] == "none";
      Some("none")
    else if s[p + 1] != '#' then None
    else
      var n := HexRun(s, p + 2);
      if 3 <= n <= 8 && p + 2 + n < |s| && s[p + 2 + n] == '"' then Some(s[p + 1..p + 2 + n])
      else None
  }

  /** A quoted colour is matched wherever it starts: MatchAt finds exactly
      the quoted colours. */
  lemma MatchAtComplete(s: string, p: nat, t: string)
    requires IsColourToken(t) && QuotedAt(s, p, t)
    ensures MatchAt(s, p) == Some(t)
  {
    if t != "none" {
      assert s[p + 1] == t[0];
      assert s[p + 1] != 'n';
      forall k | p + 2 <= k < p + 1 + |t| ensures IsLowerHex(s[k]) {
        assert s[k] == t[k - p - 1];
      }
      assert s[p + 1 + |t|] == '"';
      HexRunExact(s, p + 2, |t| - 1);
    }
  }

  /** A run of `m` hex digits followed by something else has length `m`. */
  lemma {:induction false} HexRunExact(s: string, i: nat, m: nat)
    requires i + m < |s|
    requires forall k :: i <= k < i + m ==> IsLowerHex(s[k])
    requires !IsLowerHex(s[i + m])
    ensures HexRun(s, i) == m
    decreases m
  {
    if m > 0 {
      HexRunExact(s, i + 1, m - 1);
    }
  }

  /** One match: where its opening quote is and the colour it holds. */
  datatype Match = Match(start: nat, colour: string)

  /** The end of a match, one past its closing quote. */
  function End(m: Match): nat {
    m.start + |m.colour| + 2
  }

  /** All matches at or after `p`, left to right: after a match the search
      resumes past its closing quote. */
  function Matches(s: string, p: nat): seq<Match>
    requires p <= |s|
    decreases |s| - p
  {
    if p == |s| then []
    else match MatchAt(s, p)
      case Some(t) => [Match(p, t)] + Matches(s, p + |t| + 2)
      case None => Matches(s, p + 1)
  }

  /** Every match holds a quoted colour, lies within `s[p..]`, and the
      matches follow each other without overlapping. */
  lemma {:induction false} MatchesSound(s: string, p: nat)
    requires p <= |s|
    ensures forall m :: m in Matches(s, p) ==>
      p <= m.start && IsColourToken(m.colour) && QuotedAt(s, m.start, m.colour)
    ensures forall i :: 0 < i < |Matches(s, p)| ==> End(Matches(s, p)[i - 1]) <= Matches(s, p)[i].start
    decreases |s| - p
  {
    if p < |s| {
      match MatchAt(s, p)
      case Some(t) => MatchesSound(s, p + |t| + 2);
      case None => MatchesSound(s, p + 1);
    }
  }

  /** No quoted colour is missed: each one either starts a match or lies
      inside a match that starts before it. */
  lemma MatchesComplete(s: string, p: nat, q: nat, t: string)
    requires p <= q && IsColourToken(t) && QuotedAt(s, q, t)
    ensures exists m :: m in Matches(s, p) && m.start <= q < End(m)
  {
    MatchAtComplete(s, q, t);
    MatchesCover(s, p, q);
    CoveredByMember(Matches(s, p), q);
  }

  /** Some match of `ms` spans position `q`. */
  predicate CoveredBy(ms: seq<Match>, q: nat) {
    ms != [] && (ms[0].start <= q < End(ms[0]) || CoveredBy(ms[1..], q))
  }

  lemma {:induction false} CoveredByMember(ms: seq<Match>, q: nat)
    requires CoveredBy(ms, q)
    ensures exists m :: m in ms && m.start <= q < End(m)
  {
    if !(ms[0].start <= q < End(ms[0])) {
      CoveredByMember(ms[1..], q);
      var m :| m in ms[1..] && m.start <= q < End(m);
      assert m in ms;
    }
  }

  /** A position where a match could start is covered by a match. */
  lemma {:induction false} MatchesCover(s: string, p: nat, q: nat)
    requires p <= q < |s| && MatchAt(s, q).Some?
    ensures CoveredBy(Matches(s, p), q)
    decreases |s| - p
  {
    match MatchAt(s, p)
    case Some(u) =>
      var m := Match(p, u);
      assert Matches(s, p) == [m] + Matches(s, End(m));
      if End(m) <= q {
        MatchesCover(s, End(m), q);
        assert Matches(s, p)[1..] == Matches(s, End(m));
      }
    case None =>
      assert p != q;
      MatchesCover(s, p + 1, q);
  }

  /** The colours of the matches, in order. */
  function Colours(ms: seq<Match>): (cs: seq<string>)
    ensures |cs| == |ms| && forall i :: 0 <= i < |ms| ==> cs[i] == ms[i].colour
  {
    if ms == [] then [] else [ms[0].colour] + Colours(ms[1..])
  }

  /** The colours found in a file's text, in order: the first submatch of
      every match of the pattern. */
  function Scan(text: string): seq<string> {
    Colours(Matches(text, 0))
  }

  /** A colour between quotes, as it stands in the text. */
  function Quote(t: string): string {
    "\"" + t + "\""
  }

  /** A quoted colour token is matched where it stands. */
  lemma MatchAtQuoted(s: string, p: nat, t: string)
    requires IsColourToken(t) && p + |t| + 2 <= |s| && s[p..p + |t| + 2] == Quote(t)
    ensures MatchAt(s, p) == Some(t)
  {
    var q := s[p..p + |t| + 2];
    assert q == ("\"" + t) + "\"";
    forall k | p + 1 <= k < p + 1 + |t| ensures s[k] == t[k - p - 1] {
      assert s[k] == q[k - p];
    }
    assert s[p + 1..p + 1 + |t|] == t;
    assert s[p] == q[0];
    assert s[p + 1 + |t|] == q[|t| + 1];
    MatchAtComplete(s, p, t);
  }

  /** A quoted colour token is the next match, and the search resumes
      right after its closing quote. */
  lemma MatchesQuoted(s: string, p: nat, t: string)
    requires IsColourToken(t) && p + |t| + 2 <= |s| && s[p..p + |t| + 2] == Quote(t)
    ensures Matches(s, p) == [Match(p, t)] + Matches(s, p + |t| + 2)
  {
    MatchAtQuoted(s, p, t);
  }

  /** Two quoted "#ff0000" and a quoted "none", side by side, are three
      matches: the search resumes right after each closing quote. */
  lemma ScanExample()
    ensures Scan(Quote("#ff0000") + Quote("#ff0000") + Quote("none")) == ["#ff0000", "#ff0000", "none"]
  {
    var red, none := "#ff0000", "none";
    assert IsColourToken(red) by {
      assert forall i :: 1 <= i < |red| ==> IsLowerHex(red[i]);
    }
    var a, b := Quote(red), Quote(none);
    var s := a + a + b;
    assert s == a + (a + b);
    assert s[0..9] == a && s[9..18] == a && s[18..24] == b;
    MatchesQuoted(s, 0, red);
    MatchesQuoted(s, 9, red);
    MatchesQuoted(s, 18, none);
    assert Matches(s, 24) == [];
  }

  /** Upper-case hex digits are not a colour. */
  lemma MatchAtUpperCase()
    ensures MatchAt("\"#FFF\"", 0) == None
  {
    var s := "\"#FFF\"";
    assert HexRun(s, 2) == 0 by { assert !IsLowerHex(s[2]); }
  }

  /** Nine hex digits are one too many: the greedy run overshoots the
      eight the pattern allows, so nothing matches there. */
  lemma MatchAtNineDigits()
    ensures MatchAt("\"#123456789\"", 0) == None
  {
    var s := "\"#123456789\"";
    HexRunExact(s, 2, 9);
  }

  // ---------------------------------------------------------------------
  // The tallies of main

  /** A directory entry: its name and what reading it gives. */
  datatype DirEntry = DirEntry(name: string, content: Result<string>)

  /** The two tallies: files per colour and distinct colours per file. */
  datatype Report = Report(colorScheme: map<string, int>, colorsPerIllustration: map<string, int>)

  /** A map lookup in Go: a missing key reads as zero. */
  function Get<K(==)>(m: map<K, int>, k: K): int {
    if k in m then m[k] else 0
  }

  /** `m[k] += 1` in Go. */
  function Inc<K(==)>(m: map<K, int>, k: K): map<K, int>
  {
    m[k := Get(m, k) + 1]
  }

  /** An increment adds one to its key, creating it if missing, and leaves
      every other key as it was. */
  lemma IncCounts<K>(m: map<K, int>, k: K)
    ensures Inc(m, k).Keys == m.Keys + {k}
    ensures forall x :: Get(Inc(m, k), x) == Get(m, x) + (if x == k then 1 else 0)
  {
  }

  /** One increment per key of `keys`, in order. */
  function IncEach<K(==)>(m: map<K, int>, keys: seq<K>): map<K, int>
  {
    if keys == [] then m else Inc(IncEach(m, keys[..|keys| - 1]), keys[|keys| - 1])
  }

  /** `n` increments of the key `k`. */
  function IncBy<K(==)>(m: map<K, int>, k: K, n: nat): map<K, int>
  {
    if n == 0 then m else Inc(IncBy(m, k, n - 1), k)
  }

  /** The distinct colours of a file, in order of first appearance: what
      the `doubles` map lets through. */
  function FileColours(text: string): seq<string> {
    Dedup(Scan(text))
  }

  /** The loop of main over the directory entries: each file's distinct
      colours bump the colour tally once each and the file's own count once
      per colour; a file that cannot be read ends the run. */
  function Tally(entries: seq<DirEntry>): Result<Report>
    decreases |entries|
  {
    if entries == [] then Ok(Report(map[], map[]))
    else
      var prev := Tally(entries[..|entries| - 1]);
      var e := entries[|entries| - 1];
      if prev.Err? then prev
      else if e.content.Err? then Err(e.content.error)
      else
        var d := FileColours(e.content.value);
        Ok(Report(IncEach(prev.value.colorScheme, d), IncBy(prev.value.colorsPerIllustration, e.name, |d|)))
  }

  /** Once a prefix has failed, the later entries change nothing. */
  lemma {:induction false} TallyAfterFailure(entries: seq<DirEntry>, n: nat)
    requires n <= |entries| && Tally(entries[..n]).Err?
    ensures Tally(entries) == Tally(entries[..n])
    decreases |entries| - n
  {
    if n < |entries| {
      var m := |entries| - 1;
      assert entries[..m][..n] == entries[..n];
      TallyAfterFailure(entries[..m], n);
    } else {
      assert entries[..n] == entries;
    }
  }

  /** main: read the directory, then scan each file and update both
      tallies in place, skipping colours already seen in the same file. */
  method Analyse(listing: Result<seq<DirEntry>>) returns (r: Result<Report>)
    ensures r == if listing.Err? then Err(listing.error) else Tally(listing.value)
  {
    if listing.Err? {
      return Err(listing.error);
    }
    var entries := listing.value;
    var colorScheme: map<string, int> := map[];
    var colorsPerIllustration: map<string, int> := map[];
    for k := 0 to |entries|
      invariant Tally(entries[..k]) == Ok(Report(colorScheme, colorsPerIllustration))
    {
      var entry := entries[k];
      assert entries[..k + 1][..k] == entries[..k];
      if entry.content.Err? {
        TallyAfterFailure(entries, k + 1);
        return Err(entry.content.error);
      }
      var colours := Scan(entry.content.value);
      colorScheme, colorsPerIllustration := CountFile(colorScheme, colorsPerIllustration, entry.name, colours);
    }
    assert entries[..|entries|] == entries;
    return Ok(Report(colorScheme, colorsPerIllustration));
  }

  /** The inner loop of main over one file's matches: the `doubles` map
      skips a colour already seen in this file; every other colour bumps
      its own count and the file's count. */
  method CountFile<K(==)>(colorScheme: map<K, int>, colorsPerIllustration: map<K, int>, name: K,
                   colours: seq<K>)
    returns (scheme: map<K, int>, perFile: map<K, int>)
    ensures scheme == IncEach(colorScheme, Dedup(colours))
    ensures perFile == IncBy(colorsPerIllustration, name, |Dedup(colours)|)
  {
    scheme, perFile := colorScheme, colorsPerIllustration;
    var doubles: map<K, bool> := map[];
    ghost var seen: seq<K> := [];
    for j := 0 to |colours|
      invariant forall c :: c in doubles <==> c in colours[..j]
      invariant forall c :: c in doubles ==> doubles[c]
      invariant forall c :: c in seen <==> c in colours[..j]
      invariant seen == Dedup(colours[..j])
      invariant scheme == IncEach(colorScheme, seen)
      invariant perFile == IncBy(colorsPerIllustration, name, |seen|)
    {
      var color := colours[j];
      DedupSnoc(colours[..j], color);
      assert colours[..j + 1] == colours[..j] + [color];
      if color in doubles && doubles[color] {
        continue;
      }
      IncStep(colorScheme, colorsPerIllustration, name, seen, color, scheme, perFile);
      scheme := scheme[color := Get(scheme, color) + 1];
      doubles := doubles[color := true];
      perFile := perFile[name := Get(perFile, name) + 1];
      seen := seen + [color];
    }
    assert colours[..|colours|] == colours;
  }

  /** One more new colour: one more increment of it and of the file. */
  lemma IncStep<K>(colorScheme: map<K, int>, colorsPerIllustration: map<K, int>, name: K,
                seen: seq<K>, color: K, scheme: map<K, int>, perFile: map<K, int>)
    requires scheme == IncEach(colorScheme, seen) && perFile == IncBy(colorsPerIllustration, name, |seen|)
    ensures scheme[color := Get(scheme, color) + 1] == IncEach(colorScheme, seen + [color])
    ensures perFile[name := Get(perFile, name) + 1] == IncBy(colorsPerIllustration, name, |seen + [color]|)
  {
    assert (seen + [color])[..|seen|] == seen;
  }

  /** One more element: Dedup keeps it only when it is new. */
  lemma DedupSnoc<K>(s: seq<K>, x: K)
    ensures Dedup(s + [x]) == if x in s then Dedup(s) else Dedup(s) + [x]
  {
    assert (s + [x])[..|s|] == s;
  }

  /** Incrementing each of a list of distinct keys adds one to each of
      their counts and creates exactly the missing ones. */
  lemma {:induction false} IncEachCounts<K>(m: map<K, int>, d: seq<K>)
    requires Distinct(d)
    ensures forall c :: Get(IncEach(m, d), c) == Get(m, c) + (if c in d then 1 else 0)
    ensures forall c :: c in IncEach(m, d) <==> c in m || c in d
    decreases |d|
  {
    if d != [] {
      var t := d[..|d| - 1];
      assert Distinct(t);
      IncEachCounts(m, t);
      IncCounts(IncEach(m, t), d[|d| - 1]);
      assert d == t + [d[|d| - 1]];
    }
  }

  /** `n` increments of one key add `n` to it and nothing to the others;
      the key exists afterwards only if it did before or `n > 0`. */
  lemma {:induction false} IncByCounts<K>(m: map<K, int>, k: K, n: nat)
    ensures forall x :: Get(IncBy(m, k, n), x) == Get(m, x) + (if x == k then n else 0)
    ensures forall x :: x in IncBy(m, k, n) <==> x in m || (x == k && n > 0)
    decreases n
  {
    if n > 0 {
      IncByCounts(m, k, n - 1);
      IncCounts(IncBy(m, k, n - 1), k);
    }
  }

  /** How many readable entries contain the colour `c`. */
  function FilesWith(entries: seq<DirEntry>, c: string): nat
    decreases |entries|
  {
    if entries == [] then 0
    else
      var e := entries[|entries| - 1];
      FilesWith(entries[..|entries| - 1], c) + (if e.content.Ok? && c in Scan(e.content.value) then 1 else 0)
  }

  /** How many distinct colours the readable entries named `n` hold
      together. */
  function ColoursNamed(entries: seq<DirEntry>, n: string): nat
    decreases |entries|
  {
    if entries == [] then 0
    else
      var e := entries[|entries| - 1];
      ColoursNamed(entries[..|entries| - 1], n)
        + (if e.content.Ok? && e.name == n then |FileColours(e.content.value)| else 0)
  }

  /** The colour tally counts, for each colour, the files that contain it
      (however often), and holds a key only for colours found somewhere. */
  lemma {:induction false} TallyCountsFiles(entries: seq<DirEntry>)
    requires Tally(entries).Ok?
    ensures forall c :: Get(Tally(entries).value.colorScheme, c) == FilesWith(entries, c)
    ensures forall c :: c in Tally(entries).value.colorScheme <==> FilesWith(entries, c) > 0
    decreases |entries|
  {
    if entries != [] {
      var t := entries[..|entries| - 1];
      var e := entries[|entries| - 1];
      TallyCountsFiles(t);
      var d := FileColours(e.content.value);
      DedupElements(Scan(e.content.value));
      IncEachCounts(Tally(t).value.colorScheme, d);
    }
  }

  /** The per-file tally counts, for each name, the distinct colours of the
      files of that name, and holds a key only for names with a colour. */
  lemma {:induction false} TallyCountsColours(entries: seq<DirEntry>)
    requires Tally(entries).Ok?
    ensures forall n :: Get(Tally(entries).value.colorsPerIllustration, n) == ColoursNamed(entries, n)
    ensures forall n :: n in Tally(entries).value.colorsPerIllustration <==> ColoursNamed(entries, n) > 0
    decreases |entries|
  {
    if entries != [] {
      var t := entries[..|entries| - 1];
      var e := entries[|entries| - 1];
      TallyCountsColours(t);
      IncByCounts(Tally(t).value.colorsPerIllustration, e.name, |FileColours(e.content.value)|);
    }
  }

  /** Directory entry names are unique. */
  predicate DistinctNames(entries: seq<DirEntry>) {
    forall i, j :: 0 <= i < j < |entries| ==> entries[i].name != entries[j].name
  }

  /** With unique names, the colours counted under a file's name are its
      own distinct colours. */
  lemma {:induction false} ColoursNamedUnique(entries: seq<DirEntry>, k: nat)
    requires DistinctNames(entries) && k < |entries| && entries[k].content.Ok?
    ensures ColoursNamed(entries, entries[k].name) == |FileColours(entries[k].content.value)|
    decreases |entries|
  {
    var m := |entries| - 1;
    var t := entries[..m];
    if k < m {
      assert DistinctNames(t);
      assert t[k] == entries[k];
      ColoursNamedUnique(t, k);
    } else {
      ColoursNamedAbsent(t, entries[k].name);
    }
  }

  lemma {:induction false} ColoursNamedAbsent(entries: seq<DirEntry>, n: string)
    requires forall i :: 0 <= i < |entries| ==> entries[i].name != n
    ensures ColoursNamed(entries, n) == 0
    decreases |entries|
  {
    if entries != [] {
      ColoursNamedAbsent(entries[..|entries| - 1], n);
    }
  }

  /** With unique names, each file's entry in the per-file tally is its
      number of distinct colours, and a file without colours has no entry
      at all (rather than a zero). */
  lemma TallyPerFile(entries: seq<DirEntry>, k: nat)
    requires Tally(entries).Ok? && DistinctNames(entries) && k < |entries|
    ensures entries[k].content.Ok?
    ensures entries[k].name in Tally(entries).value.colorsPerIllustration
            <==> |FileColours(entries[k].content.value)| > 0
    ensures Get(Tally(entries).value.colorsPerIllustration, entries[k].name)
            == |FileColours(entries[k].content.value)|
  {
    TallyReadAll(entries);
    TallyCountsColours(entries);
    ColoursNamedUnique(entries, k);
  }

  /** A successful run read every file. */
  lemma {:induction false} TallyReadAll(entries: seq<DirEntry>)
    ensures Tally(entries).Ok? <==> forall i :: 0 <= i < |entries| ==> entries[i].content.Ok?
    decreases |entries|
  {
    if entries != [] {
      var t := entries[..|entries| - 1];
      var e := entries[|entries| - 1];
      TallyReadAll(t);
      assert forall i :: 0 <= i < |t| ==> t[i] == entries[i];
      assert Tally(entries).Ok? <==> Tally(t).Ok? && e.content.Ok?;
    }
  }

  /** Some key of a non-empty map. */
  ghost function AnyKey<K>(m: map<K, int>): (k: K)
    requires |m| != 0
    ensures k in m
  {
    assert m.Keys != {};
    var k :| k in m; k
  }

  /** The sum of the values of a map. */
  ghost function Total<K>(m: map<K, int>): int
    decreases |m|
  {
    if |m| == 0 then 0
    else
      var k := AnyKey(m);
      m[k] + Total(m - {k})
  }

  /** The sum does not depend on which key is taken first. */
  lemma {:induction false} TotalRemove<K>(m: map<K, int>, k: K)
    requires k in m
    ensures Total(m) == m[k] + Total(m - {k})
    decreases |m|
  {
    assert |m| != 0 by { assert k in m.Keys; }
    var j := AnyKey(m);
    if j != k {
      var mj, mk := m - {j}, m - {k};
      assert mj.Keys == m.Keys - {j} && mk.Keys == m.Keys - {k};
      assert Total(m) == m[j] + Total(mj);
      TotalRemove(mj, k);
      TotalRemove(mk, j);
      assert mj - {k} == mk - {j};
    }
  }

  /** Writing `v` at `k` replaces that key's share of the sum. */
  lemma TotalUpdate<K>(m: map<K, int>, k: K, v: int)
    ensures Total(m[k := v]) == Total(m) - Get(m, k) + v
  {
    TotalRemove(m[k := v], k);
    RemoveUpdated(m, k, v);
    TotalWithout(m, k);
  }

  /** The sum without a key, present or not, is the sum less its value. */
  lemma TotalWithout<K>(m: map<K, int>, k: K)
    ensures Total(m) == Get(m, k) + Total(m - {k})
  {
    if k in m {
      TotalRemove(m, k);
    } else {
      assert m - {k} == m;
    }
  }

  /** Removing a key just written gives the map without that key. */
  lemma RemoveUpdated<K>(m: map<K, int>, k: K, v: int)
    ensures m[k := v] - {k} == m - {k}
  {
    var a, b := m[k := v] - {k}, m - {k};
    assert a.Keys == b.Keys;
    assert forall x :: x in a ==> a[x] == b[x];
  }

  lemma TotalInc<K>(m: map<K, int>, k: K)
    ensures Total(Inc(m, k)) == Total(m) + 1
  {
    TotalUpdate(m, k, Get(m, k) + 1);
  }

  lemma {:induction false} TotalIncEach<K>(m: map<K, int>, d: seq<K>)
    ensures Total(IncEach(m, d)) == Total(m) + |d|
    decreases |d|
  {
    if d != [] {
      var prev := IncEach(m, d[..|d| - 1]);
      TotalIncEach(m, d[..|d| - 1]);
      TotalInc(prev, d[|d| - 1]);
      assert IncEach(m, d) == Inc(prev, d[|d| - 1]);
    }
  }

  /** `n > 0` increments of one key are one write of the sum. */
  lemma {:induction false} IncByWrite<K>(m: map<K, int>, k: K, n: nat)
    requires n > 0
    ensures IncBy(m, k, n) == m[k := Get(m, k) + n]
    decreases n
  {
    if n > 1 {
      IncByWrite(m, k, n - 1);
      var prev := IncBy(m, k, n - 1);
      assert Get(prev, k) == Get(m, k) + n - 1;
      assert prev[k := Get(prev, k) + 1] == m[k := Get(m, k) + n];
    }
  }

  lemma TotalIncBy<K>(m: map<K, int>, k: K, n: nat)
    ensures Total(IncBy(m, k, n)) == Total(m) + n
  {
    if n > 0 {
      IncByWrite(m, k, n);
      TotalUpdate(m, k, Get(m, k) + n);
    }
  }

  /** Both tallies are bumped together, once per new colour of a file, so
      their sums agree. */
  lemma {:induction false} TallyTotals(entries: seq<DirEntry>)
    requires Tally(entries).Ok?
    ensures Total(Tally(entries).value.colorScheme) == Total(Tally(entries).value.colorsPerIllustration)
    decreases |entries|
  {
    if entries != [] {
      var t := entries[..|entries| - 1];
      var e := entries[|entries| - 1];
      TallyTotals(t);
      var d := FileColours(e.content.value);
      TotalIncEach(Tally(t).value.colorScheme, d);
      TotalIncBy(Tally(t).value.colorsPerIllustration, e.name, |d|);
    }
  }

  /** Within one file a colour counts once: a file whose matches are two
      "#ff0000" and one "none" adds one to each of the two colours and two
      to its own count. */
  lemma DoubledColourCountsOnce(name: string, text: string)
    requires Scan(text) == ["#ff0000", "#ff0000", "none"]
    ensures Tally([DirEntry(name, Ok(text))])
            == Ok(Report(map["#ff0000" := 1, "none" := 1], map[name := 2]))
  {
    var red, none := "#ff0000", "none";
    assert red != none by { assert |red| != |none|; }
    var s := [red, red, none];
    assert s[..2][..1] == [red] && s[..2][..1][..0] == [];
    assert Dedup(s[..1]) == [red];
    assert Dedup(s[..2]) == [red];
    assert Dedup(s) == [red, none];
    OneFileTally(name, text);
  }

  /** The same file, scanned from its text: a file holding only
      "#ff0000", "#ff0000" and "none", each quoted. */
  lemma DoubledColourScanned(name: string)
    ensures Tally([DirEntry(name, Ok(Quote("#ff0000") + Quote("#ff0000") + Quote("none")))])
            == Ok(Report(map["#ff0000" := 1, "none" := 1], map[name := 2]))
  {
    ScanExample();
    DoubledColourCountsOnce(name, Quote("#ff0000") + Quote("#ff0000") + Quote("none"));
  }

  /** A first file with the colours {"#ff0000", "none"}. */
  lemma OneFileTally(name: string, text: string)
    requires FileColours(text) == ["#ff0000", "none"]
    ensures Tally([DirEntry(name, Ok(text))])
            == Ok(Report(map["#ff0000" := 1, "none" := 1], map[name := 2]))
  {
    var red, none := "#ff0000", "none";
    assert red != none by { assert |red| != |none|; }
    assert [DirEntry(name, Ok(text))][..0] == [];
    var d := [red, none];
    assert d[..1] == [red] && d[..1][..0] == [];
    assert IncEach(map[], d[..1]) == Inc(map[], red) == map[red := 1];
    assert Get(map[red := 1], none) == 0;
    assert IncEach(map[], d) == Inc(map[red := 1], none);
    assert IncBy(map[], name, 1) == map[name := 1];
    assert IncBy(map[], name, 2) == map[name := 2];
  }

  /** Two files, one with the colours {"#ff0000", "none"} and one with
      {"#ff0000"}: the colour tally counts "#ff0000" twice and "none" once,
      and the per-file tally holds 2 and 1. */
  lemma TwoFilesTally(a: string, b: string, t1: string, t2: string)
    requires a != b
    requires FileColours(t1) == ["#ff0000", "none"] && FileColours(t2) == ["#ff0000"]
    ensures Tally([DirEntry(a, Ok(t1)), DirEntry(b, Ok(t2))])
            == Ok(Report(map["#ff0000" := 2, "none" := 1], map[a := 2, b := 1]))
  {
    var red, none := "#ff0000", "none";
    var e1, e2 := DirEntry(a, Ok(t1)), DirEntry(b, Ok(t2));
    OneFileTally(a, t1);
    assert [e1, e2][..1] == [e1];
    var m1: map<string, int> := map[red := 1, none := 1];
    assert [red][..0] == [];
    assert IncEach(m1, [red]) == Inc(m1, red) == map[red := 2, none := 1];
    assert IncBy(map[a := 2], b, 1) == map[a := 2, b := 1];
  }
}
