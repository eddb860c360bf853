/**
 * The request-head parser of webpp11's Server::parse_request, stated as
 * specification functions over the buffered stream.
 *
 * The stream is read line by line with std::getline (split at '\n', which is
 * consumed), and every line loses its last character to pop_back, which
 * expects a trailing '\r'. The first line must fit
 *   ^([^ ]*) ([^ ]*) HTTP/([^ ]*)$
 * and then header lines are read while they fit
 *   ^([^:]*): ?(.*)$
 * Both patterns are fixed, so they are written here as character-level
 * matchers. In the ECMAScript grammar of std::regex, '.' matches any
 * character except '\r' and '\n'.
 */
module RequestParser {
  import opened Http

  const CR := '\r'
  const LF := '\n'

  /** Position of the first c in s, or |s| when s holds no c. */
  function IndexOf(s: string, c: char): (i: nat)
    ensures i <= |s|
    ensures i < |s| ==> s[i] == c
    ensures c !in s[..i]
    ensures i == |s| <==> c !in s
    decreases |s|
  {
    if s == [] then 0
    else if s[0] == c then 0
    else
      var j := IndexOf(s[1..], c);
      assert s[..1 + j] == [s[0]] + s[1..][..j];
      1 + j
  }

  /** The first c in a + b is the one b starts with when a holds none. */
  lemma IndexOfAfter(a: string, b: string, c: char)
    requires c !in a && b != [] && b[0] == c
    ensures IndexOf(a + b, c) == |a|
  {
    assert (a + b)[..|a|] == a;
    assert (a + b)[|a|] == c;
  }

  /**
   * std::getline: the line up to the first '\n' (not included) and what is
   * left of the stream after it. Without a '\n' the whole rest is the line.
   */
  function Getline(s: string): (r: (string, string))
    ensures LF !in r.0
    ensures LF in s ==> s == r.0 + [LF] + r.1
    ensures LF !in s ==> r == (s, [])
  {
    var i := IndexOf(s, LF);
    if i < |s| then
      assert s == s[..i] + [LF] + s[i + 1..];
      (s[..i], s[i + 1..])
    else
      assert s[..i] == s;
      (s, [])
  }

  /** A line without '\n', followed by '\n', comes back out of getline unchanged. */
  lemma GetlineOf(line: string, rest: string)
    requires LF !in line
    ensures Getline(line + [LF] + rest) == (line, rest)
  {
    var s := line + [LF] + rest;
    assert s == line + ([LF] + rest);
    IndexOfAfter(line, [LF] + rest, LF);
    assert s[..|line|] == line;
    assert s[|line| + 1..] == rest;
  }

  /** std::string::pop_back, which is only defined on a non-empty string. */
  function PopBack(line: string): (r: string)
    requires line != []
    ensures line == r + [line[|line| - 1]]
  {
    line[..|line| - 1]
  }

  predicate SpaceFree(s: string) {
    ' ' !in s
  }

  predicate NoLineBreak(s: string) {
    CR !in s && LF !in s
  }

  /**
   * Splits s at its first space: the space-free part before it and
   * everything after it; None when s holds no space.
   */
  function SplitAtSpace(s: string): (r: Option<(string, string)>)
    ensures r.Some? ==> SpaceFree(r.value.0) && s == r.value.0 + " " + r.value.1
    ensures r.None? <==> SpaceFree(s)
  {
    var i := IndexOf(s, ' ');
    if i == |s| then
      assert s[..i] == s;
      None
    else
      assert s == s[..i] + " " + s[i + 1..];
      Some((s[..i], s[i + 1..]))
  }

  /** A space-free head is split off from the first space that follows it. */
  lemma SplitAtSpaceOf(head: string, tail: string)
    requires SpaceFree(head)
    ensures SplitAtSpace(head + " " + tail) == Some((head, tail))
  {
    var s := head + " " + tail;
    assert s == head + (" " + tail);
    IndexOfAfter(head, " " + tail, ' ');
    assert s[..|head|] == head;
    assert s[|head| + 1..] == tail;
  }

  /** The request line as the nesting of its two splits at a space. */
  lemma RequestLineShape(m: string, p: string, v: string)
    ensures m + " " + p + " HTTP/" + v == m + " " + (p + " " + ("HTTP/" + v))
  {
    assert " HTTP/" == " " + "HTTP/";
  }

  predicate HttpPrefixed(s: string) {
    |s| >= 5 && s[..5] == "HTTP/"
  }

  /**
   * The request-line pattern ^([^ ]*) ([^ ]*) HTTP/([^ ]*)$: a match yields
   * (method, path, version). Since no group holds a space, the line is split
   * at its only two spaces.
   */
  function MatchRequestLine(line: string): (r: Option<(string, string, string)>)
    ensures r.Some? ==>
      && SpaceFree(r.value.0) && SpaceFree(r.value.1) && SpaceFree(r.value.2)
      && line == r.value.0 + " " + r.value.1 + " HTTP/" + r.value.2
  {
    match SplitAtSpace(line)
    case None => None
    case Some((m, tail)) =>
      match SplitAtSpace(tail)
      case None => None
      case Some((p, version)) =>
        if HttpPrefixed(version) && SpaceFree(version) then
          var v := version[5..];
          assert version == "HTTP/" + v;
          assert SpaceFree(v) by {
            assert forall k :: 0 <= k < |v| ==> v[k] == version[k + 5];
          }
          RequestLineShape(m, p, v);
          Some((m, p, v))
        else None
  }

  /** Every space-free method, path and version is read back from its request line. */
  lemma RequestLineRoundTrip(m: string, p: string, v: string)
    requires SpaceFree(m) && SpaceFree(p) && SpaceFree(v)
    ensures MatchRequestLine(m + " " + p + " HTTP/" + v) == Some((m, p, v))
  {
    var line, version := m + " " + p + " HTTP/" + v, "HTTP/" + v;
    assert SplitAtSpace(line) == Some((m, p + " " + version)) by {
      RequestLineShape(m, p, v);
      SplitAtSpaceOf(m, p + " " + version);
    }
    assert SplitAtSpace(p + " " + version) == Some((p, version)) by {
      SplitAtSpaceOf(p, version);
    }
    VersionPart(v);
    MatchRequestLineOf(line, p + " " + version);
  }

  /** "HTTP/" + v is a third part the pattern accepts, with v as its version. */
  lemma VersionPart(v: string)
    requires SpaceFree(v)
    ensures HttpPrefixed("HTTP/" + v) && SpaceFree("HTTP/" + v) && ("HTTP/" + v)[5..] == v
  {
    var version := "HTTP/" + v;
    assert forall k :: 5 <= k < |version| ==> version[k] == v[k - 5];
  }

  /** MatchRequestLine once both splits at a space are known. */
  lemma MatchRequestLineOf(line: string, tail: string)
    requires SplitAtSpace(line).Some? && SplitAtSpace(line).value.1 == tail
    requires SplitAtSpace(tail).Some?
    ensures
      var m, version := SplitAtSpace(line).value.0, SplitAtSpace(tail).value.1;
      MatchRequestLine(line) ==
        if HttpPrefixed(version) && SpaceFree(version)
        then Some((m, SplitAtSpace(tail).value.0, version[5..]))
        else None
  {
  }

  /**
   * The header pattern ^([^:]*): ?(.*)$: the key is everything before the
   * first ':', the value the rest of the line with at most one leading space
   * removed. '.' does not match '\r' or '\n', so a line whose value holds
   * either does not match.
   */
  function MatchHeaderLine(line: string): (r: Option<(string, string)>)
    ensures r.Some? ==>
      && ':' !in r.value.0
      && NoLineBreak(r.value.1)
      && (line == r.value.0 + ":" + r.value.1 || line == r.value.0 + ": " + r.value.1)
    ensures ':' !in line ==> r.None?
  {
    var i := IndexOf(line, ':');
    if i == |line| then None
    else
      var key, rest := line[..i], line[i + 1..];
      assert line == key + ":" + rest;
      match HeaderValue(rest)
      case None => None
      case Some(value) =>
        assert rest == " " + value ==> line == key + ": " + value;
        Some((key, value))
  }

  /** The part ` ?(.*)$` of the header pattern, applied to what follows the first ':'. */
  function HeaderValue(rest: string): (r: Option<string>)
    ensures r.None? <==> !NoLineBreak(rest)
    ensures r.Some? ==> NoLineBreak(r.value) && (rest == r.value || rest == " " + r.value)
  {
    if !NoLineBreak(rest) then None
    else if rest != [] && rest[0] == ' ' then
      assert rest == " " + rest[1..];
      Some(rest[1..])
    else Some(rest)
  }

  /**
   * A header line K + ":" + S + R, with K free of ':', S either "" or " "
   * and R free of line breaks, records R under K. The one exception: with
   * S == "" a leading space of R is the optional space of the pattern.
   */
  lemma HeaderLineRoundTrip(key: string, sep: string, value: string)
    requires ':' !in key && (sep == "" || sep == " ") && NoLineBreak(value)
    ensures MatchHeaderLine(key + ":" + sep + value) ==
      Some((key, if sep == "" && value != [] && value[0] == ' ' then value[1..] else value))
  {
    var rest := sep + value;
    MatchHeaderLineOf(key, rest);
    assert NoLineBreak(rest);
    if sep == " " {
      assert rest[1..] == value;
    }
    assert key + ":" + sep + value == key + ":" + rest;
  }

  /** MatchHeaderLine once the first ':' is known to follow key. */
  lemma MatchHeaderLineOf(key: string, rest: string)
    requires ':' !in key
    ensures MatchHeaderLine(key + ":" + rest) ==
      if !NoLineBreak(rest) then None
      else if rest != [] && rest[0] == ' ' then Some((key, rest[1..]))
      else Some((key, rest))
  {
    var line := key + ":" + rest;
    assert IndexOf(line, ':') == |key| && line[..|key|] == key && line[|key| + 1..] == rest by {
      assert line == key + (":" + rest);
      IndexOfAfter(key, ":" + rest, ':');
    }
  }

  /** A line holding ':' fails the header pattern only through a line break after the first ':'. */
  lemma HeaderLineRejected(line: string)
    requires ':' in line
    ensures MatchHeaderLine(line).None? <==> !NoLineBreak(line[IndexOf(line, ':') + 1..])
  {
    var i := IndexOf(line, ':');
    assert i < |line|;
    assert MatchHeaderLine(line).None? <==> HeaderValue(line[i + 1..]).None?;
  }

  ghost predicate TerminatorAt(s: string, i: nat) {
    i + 4 <= |s| && s[i] == CR && s[i + 1] == LF && s[i + 2] == CR && s[i + 3] == LF
  }

  /** The stream holds the header terminator "\r\n\r\n", as async_read_until guarantees. */
  ghost predicate HasTerminator(s: string) {
    exists i: nat :: TerminatorAt(s, i)
  }

  ghost predicate StartsWithCrlf(s: string) {
    |s| >= 2 && s[0] == CR && s[1] == LF
  }

  /**
   * What is left of the stream while headers are read: the terminator is
   * still ahead, or the blank line "\r\n" is next. Either way getline never
   * reaches the end of the stream before reading stops.
   */
  ghost predicate Framed(s: string) {
    HasTerminator(s) || StartsWithCrlf(s)
  }

  /** Reading one line other than the blank "\r" keeps the stream framed. */
  lemma FramedAfterLine(s: string)
    requires Framed(s) && Getline(s).0 != [CR]
    ensures LF in s
    ensures Framed(Getline(s).1)
  {
    var (line, rest) := Getline(s);
    if StartsWithCrlf(s) {
      assert false;
    } else {
      var i: nat :| TerminatorAt(s, i);
      assert LF in s by { assert s[i + 1] == LF; }
      assert s == line + [LF] + rest;
      var q := |line|;
      assert s[q] == LF;
      if q == i + 1 {
        assert rest[0] == s[i + 2] && rest[1] == s[i + 3];
        assert StartsWithCrlf(rest);
      } else {
        assert q != i;
        var k: nat := i - q - 1;
        assert rest[k] == s[i] && rest[k + 1] == s[i + 1] && rest[k + 2] == s[i + 2] && rest[k + 3] == s[i + 3];
        assert TerminatorAt(rest, k);
      }
    }
  }

  /**
   * The (key, value) pairs of the header lines read before the first line
   * that does not fit the header pattern, in stream order; None when
   * pop_back meets an empty line (a bare "\n"), which is undefined in C++.
   */
  function HeaderBlock(s: string): (r: Option<seq<(string, string)>>)
    requires Framed(s)
    ensures r.Some? ==> HeaderPairs(r.value)
    decreases |s|
  {
    var (line, rest) := Getline(s);
    if line == [] then None
    else
      match MatchHeaderLine(PopBack(line))
      case None => Some([])
      case Some(field) =>
        FramedAfterLine(s);
        PrependPair(field, HeaderBlock(rest));
        Prepend([field], HeaderBlock(rest))
  }

  /** Every pair has a key free of ':' and a value free of line breaks, as the header pattern yields them. */
  predicate HeaderPairs(pairs: seq<(string, string)>) {
    forall i :: 0 <= i < |pairs| ==> ':' !in pairs[i].0 && NoLineBreak(pairs[i].1)
  }

  lemma PrependPair(field: (string, string), tail: Option<seq<(string, string)>>)
    requires ':' !in field.0 && NoLineBreak(field.1)
    requires tail.Some? ==> HeaderPairs(tail.value)
    ensures Prepend([field], tail).Some? ==> HeaderPairs(Prepend([field], tail).value)
  {
    if tail.Some? {
      var pairs := [field] + tail.value;
      assert forall i :: 1 <= i < |pairs| ==> pairs[i] == tail.value[i - 1];
    }
  }

  function Prepend<T>(prefix: seq<T>, r: Option<seq<T>>): Option<seq<T>> {
    match r
    case None => None
    case Some(xs) => Some(prefix + xs)
  }

  lemma PrependTwice<T>(first: seq<T>, second: seq<T>, r: Option<seq<T>>)
    ensures Prepend(first, Prepend(second, r)) == Prepend(first + second, r)
  {
    if r.Some? {
      assert first + (second + r.value) == first + second + r.value;
    }
  }

  /**
   * One line of header reading, seen from the pairs already stored: an empty
   * line makes the block undefined, a matching line adds its pair, and any
   * other line closes the block with the pairs stored so far.
   */
  lemma HeaderStep(done: seq<(string, string)>, s: string, block: Option<seq<(string, string)>>)
    requires Framed(s) && block == Prepend(done, HeaderBlock(s))
    ensures Getline(s).0 == [] ==> block == None
    ensures Getline(s).0 != [] && MatchHeaderLine(PopBack(Getline(s).0)).None? ==> block == Some(done)
    ensures Getline(s).0 != [] && MatchHeaderLine(PopBack(Getline(s).0)).Some? ==>
      && Framed(Getline(s).1)
      && block == Prepend(done + [MatchHeaderLine(PopBack(Getline(s).0)).value], HeaderBlock(Getline(s).1))
  {
    var (line, rest) := Getline(s);
    if line != [] {
      var field := MatchHeaderLine(PopBack(line));
      if field.Some? {
        FramedAfterLine(s);
        PrependTwice(done, [field.value], HeaderBlock(rest));
      } else {
        assert done + [] == done;
      }
    }
  }

  /** The header map after the pairs are stored one by one; a later pair overwrites an earlier one. */
  function Record(header: map<string, string>, fields: seq<(string, string)>): (r: map<string, string>)
    ensures header.Keys <= r.Keys
    ensures forall i :: 0 <= i < |fields| ==> fields[i].0 in r
    decreases |fields|
  {
    if fields == [] then header
    else
      var last := fields[|fields| - 1];
      var earlier := fields[..|fields| - 1];
      assert forall i :: 0 <= i < |earlier| ==> earlier[i] == fields[i];
      Record(header, earlier)[last.0 := last.1]
  }

  /** Storing one more pair updates the recorded map at that pair's key. */
  lemma RecordAppend(header: map<string, string>, fields: seq<(string, string)>, field: (string, string))
    ensures Record(header, fields + [field]) == Record(header, fields)[field.0 := field.1]
  {
    assert (fields + [field])[..|fields|] == fields;
  }

  /** The keys of the recorded map: those already present and those of the pairs, nothing else. */
  lemma {:induction false} RecordKeys(header: map<string, string>, fields: seq<(string, string)>)
    ensures Record(header, fields).Keys == header.Keys + set i | 0 <= i < |fields| :: fields[i].0
    decreases |fields|
  {
    if fields != [] {
      var init := fields[..|fields| - 1];
      RecordKeys(header, init);
      var s := set i | 0 <= i < |fields| :: fields[i].0;
      var t := set i | 0 <= i < |init| :: init[i].0;
      assert s == t + {fields[|fields| - 1].0} by {
        forall k | k in s ensures k in t + {fields[|fields| - 1].0} {
          var i :| 0 <= i < |fields| && fields[i].0 == k;
          if i < |init| { assert init[i] == fields[i]; }
        }
        forall k | k in t ensures k in s {
          var i :| 0 <= i < |init| && init[i].0 == k;
          assert fields[i] == init[i];
        }
      }
    }
  }

  /** Duplicate keys: the value of the last pair with a key is the one the map holds. */
  lemma {:induction false} LastFieldWins(header: map<string, string>, fields: seq<(string, string)>, i: nat)
    requires i < |fields|
    requires forall j :: i < j < |fields| ==> fields[j].0 != fields[i].0
    ensures fields[i].0 in Record(header, fields)
    ensures Record(header, fields)[fields[i].0] == fields[i].1
    decreases |fields|
  {
    if i < |fields| - 1 {
      var init := fields[..|fields| - 1];
      assert init[i] == fields[i];
      LastFieldWins(header, init, i);
    }
  }

  /** A key that no pair carries keeps the entry (or the absence of one) it had. */
  lemma {:induction false} RecordUntouched(header: map<string, string>, fields: seq<(string, string)>, key: string)
    requires forall j :: 0 <= j < |fields| ==> fields[j].0 != key
    ensures key in Record(header, fields) <==> key in header
    ensures key in header ==> Record(header, fields)[key] == header[key]
    decreases |fields|
  {
    if fields != [] {
      var init := fields[..|fields| - 1];
      assert forall j :: 0 <= j < |init| ==> init[j] == fields[j];
      RecordUntouched(header, init, key);
    }
  }

  /** What parse_request yields: a request, or undefined behaviour from pop_back on an empty line. */
  datatype ParseOutcome = Parsed(request: Request) | PopBackOnEmptyLine

  /**
   * Server::parse_request as a function of the buffered stream: the request
   * line, then the header block; a request line that does not fit leaves the
   * empty request and reads no header line.
   */
  function ParseHead(stream: string): (r: ParseOutcome)
    requires HasTerminator(stream)
    ensures r.Parsed? ==>
      && SpaceFree(r.request.httpMethod) && SpaceFree(r.request.path) && SpaceFree(r.request.httpVersion)
      && forall k :: k in r.request.header ==> ':' !in k
  {
    var (line, rest) := Getline(stream);
    if line == [] then PopBackOnEmptyLine
    else
      match MatchRequestLine(PopBack(line))
      case None => Parsed(EmptyRequest)
      case Some(fields) =>
        FramedAfterLine(stream);
        match HeaderBlock(rest)
        case None => PopBackOnEmptyLine
        case Some(pairs) =>
          RecordKeys(map[], pairs);
          Parsed(Request(fields.0, fields.1, fields.2, Record(map[], pairs)))
  }

  /** ParseHead once the request line has matched. */
  lemma ParseHeadUnfold(stream: string)
    requires HasTerminator(stream) && Getline(stream).0 != []
    requires MatchRequestLine(PopBack(Getline(stream).0)).Some?
    ensures Framed(Getline(stream).1)
    ensures
      var fields := MatchRequestLine(PopBack(Getline(stream).0)).value;
      ParseHead(stream) ==
        match HeaderBlock(Getline(stream).1)
        case None => PopBackOnEmptyLine
        case Some(pairs) => Parsed(Request(fields.0, fields.1, fields.2, Record(map[], pairs)))
  {
    FramedAfterLine(stream);
  }

  /**
   * Request-line round trip: from M + " " + P + " HTTP/" + V + "\r\n" the
   * parser takes method M, path P and version V, and the header map is
   * recorded from the header block that follows.
   */
  lemma ParseRequestLine(m: string, p: string, v: string, rest: string)
    requires SpaceFree(m) && SpaceFree(p) && SpaceFree(v)
    requires LF !in m && LF !in p && LF !in v
    requires HasTerminator(m + " " + p + " HTTP/" + v + [CR, LF] + rest)
    ensures Framed(rest)
    ensures ParseHead(m + " " + p + " HTTP/" + v + [CR, LF] + rest) ==
      match HeaderBlock(rest)
      case None => PopBackOnEmptyLine
      case Some(pairs) => Parsed(Request(m, p, v, Record(map[], pairs)))
  {
    var requestLine := m + " " + p + " HTTP/" + v;
    var stream := requestLine + [CR, LF] + rest;
    assert LF !in requestLine + [CR] by {
      assert requestLine + [CR] == m + " " + p + " HTTP/" + v + [CR];
    }
    assert stream == (requestLine + [CR]) + [LF] + rest;
    GetlineOf(requestLine + [CR], rest);
    assert PopBack(requestLine + [CR]) == requestLine;
    RequestLineRoundTrip(m, p, v);
    FramedAfterLine(stream);
  }

  /** A stream whose first line is blank yields the empty request ("\r\n" already is the terminator line). */
  lemma BlankRequestLine(rest: string)
    requires HasTerminator([CR, LF] + rest)
    ensures ParseHead([CR, LF] + rest) == Parsed(EmptyRequest)
  {
    GetlineOf([CR], rest);
    assert [CR, LF] + rest == [CR] + [LF] + rest;
  }

  /**
   * A request line that fails the pattern yields the empty request whatever
   * follows it: no header line is read.
   */
  lemma InvalidRequestLine(line: string, last: char, rest: string)
    requires LF !in line && last != LF
    requires HasTerminator(line + [last, LF] + rest)
    requires MatchRequestLine(line).None?
    ensures ParseHead(line + [last, LF] + rest) == Parsed(EmptyRequest)
  {
    assert LF !in line + [last];
    assert line + [last, LF] + rest == (line + [last]) + [LF] + rest;
    GetlineOf(line + [last], rest);
    assert PopBack(line + [last]) == line;
  }

  /** Fewer than three space-separated parts never fit the request-line pattern. */
  lemma TooFewParts(line: string)
    requires forall i, j :: 0 <= i < j < |line| ==> !(line[i] == ' ' && line[j] == ' ')
    ensures MatchRequestLine(line).None?
  {
  }

  /** A third part that does not start with "HTTP/" never fits the request-line pattern. */
  lemma NotHttpVersion(m: string, p: string, third: string)
    requires SpaceFree(m) && SpaceFree(p)
    requires !HttpPrefixed(third)
    ensures MatchRequestLine(m + " " + p + " " + third).None?
  {
    var line, tail := m + " " + p + " " + third, p + " " + third;
    assert SplitAtSpace(line) == Some((m, tail)) by {
      assert line == m + " " + tail;
      SplitAtSpaceOf(m, tail);
    }
    assert SplitAtSpace(tail) == Some((p, third)) by {
      SplitAtSpaceOf(p, third);
    }
    MatchRequestLineOf(line, tail);
  }

  /** A matching header line adds its pair in front of what the rest of the block yields. */
  lemma HeaderBlockStep(line: string, last: char, rest: string)
    requires LF !in line && last != LF
    requires Framed(line + [last, LF] + rest)
    requires MatchHeaderLine(line).Some?
    ensures Framed(rest)
    ensures HeaderBlock(line + [last, LF] + rest) == Prepend([MatchHeaderLine(line).value], HeaderBlock(rest))
  {
    var s := line + [last, LF] + rest;
    assert LF !in line + [last];
    assert s == (line + [last]) + [LF] + rest;
    GetlineOf(line + [last], rest);
    assert PopBack(line + [last]) == line;
    assert line != [] by {
      assert ':' in line;
    }
    FramedAfterLine(s);
  }

  /**
   * Header reading stops at the first line that does not fit the pattern,
   * the blank terminator line included: nothing after it reaches the header
   * map, however well formed.
   */
  lemma HeaderBlockStops(line: string, last: char, rest: string)
    requires LF !in line && last != LF
    requires Framed(line + [last, LF] + rest)
    requires MatchHeaderLine(line).None?
    ensures HeaderBlock(line + [last, LF] + rest) == Some([])
  {
    var s := line + [last, LF] + rest;
    assert LF !in line + [last];
    assert s == (line + [last]) + [LF] + rest;
    GetlineOf(line + [last], rest);
    assert PopBack(line + [last]) == line;
  }

  /** The blank line that ends a request head ends the header block. */
  lemma BlankLineEndsHeaders(rest: string)
    ensures Framed([CR, LF] + rest)
    ensures HeaderBlock([CR, LF] + rest) == Some([])
  {
    assert StartsWithCrlf([CR, LF] + rest);
    assert LF !in [];
    HeaderBlockStops([], CR, rest);
  }
}
