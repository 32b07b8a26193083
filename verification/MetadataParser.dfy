/** The metadata parser in its buffers: strings end at a NUL, and strtok_r cuts them in place. */
module MetadataParser {
  import opened Metadata

  const NUL: char := '\0'

  /** Some NUL ends the string that starts at `p`. */
  predicate Terminated(s: seq<char>, p: nat) {
    exists k :: p <= k < |s| && s[k] == NUL
  }

  /** The string that starts at `p`. */
  function StringAt(s: seq<char>, p: nat): string
    requires p <= |s|
    decreases |s| - p
  {
    if p == |s| || s[p] == NUL then [] else [s[p]] + StringAt(s, p + 1)
  }

  lemma {:induction false} StringUntil(s: seq<char>, p: nat, e: nat)
    requires p <= e <= |s| && forall k :: p <= k < e ==> s[k] != NUL
    ensures StringAt(s, p) == s[p..e] + StringAt(s, e)
    decreases e - p
  {
    if p == e {
    } else {
      StringUntil(s, p + 1, e);
      assert s[p..e] == [s[p]] + s[p + 1..e];
      assert [s[p]] + (s[p + 1..e] + StringAt(s, e)) == ([s[p]] + s[p + 1..e]) + StringAt(s, e);
    }
  }

  lemma {:induction false} SameString(s: seq<char>, t: seq<char>, p: nat)
    requires p <= |s| == |t| && forall k :: p <= k < |s| ==> s[k] == t[k]
    ensures StringAt(s, p) == StringAt(t, p)
    decreases |s| - p
  {
    if p == |s| {
    } else {
      SameString(s, t, p + 1);
    }
  }

  /** A semicolon at the start of a string does not change its tokens. */
  lemma Skipped(s: seq<char>, b: nat)
    requires b < |s| && s[b] == ';'
    ensures Tokens(StringAt(s, b)) == Tokens(StringAt(s, b + 1))
  {
    assert StringAt(s, b)[1..] == StringAt(s, b + 1);
    TokensSkip(StringAt(s, b));
  }

  /** No character from `b` up to `e` ends a token. */
  predicate Word(s: seq<char>, b: nat, e: nat)
    requires e <= |s|
  {
    forall k :: b <= k < e ==> s[k] != NUL && s[k] != ';'
  }

  lemma NoToken(s: seq<char>, b: nat)
    requires b < |s| && s[b] == NUL
    ensures Tokens(StringAt(s, b)) == []
  {
    assert Split([])[1..] == [];
  }

  lemma CutAtEnd(s: seq<char>, b: nat, e: nat)
    requires b < e < |s| && s[e] == NUL && Word(s, b, e)
    ensures Tokens(StringAt(s, b)) == [StringAt(s, b)] + Tokens(StringAt(s, e))
  {
    StringUntil(s, b, e);
    assert s[b..e] + [] == s[b..e];
    TokensWord(s[b..e], []);
    NoToken(s, e);
  }

  lemma Cut(s: seq<char>, b: nat, e: nat)
    requires b < e < |s| && s[e] == ';' && Word(s, b, e)
    ensures var t := s[e := NUL];
      Tokens(StringAt(s, b)) == [StringAt(t, b)] + Tokens(StringAt(t, e + 1))
  {
    var t := s[e := NUL];
    StringUntil(s, b, e);
    StringUntil(t, b, e);
    assert t[b..e] + [] == t[b..e] == s[b..e];
    SameString(s, t, e + 1);
    TokensWord(s[b..e], StringAt(s, e + 1));
    assert s[b..e] + ([';'] + StringAt(s, e + 1)) == s[b..e] + [';'] + StringAt(s, e + 1);
  }

  lemma StillTerminated(s: seq<char>, b: nat, e: nat)
    requires b <= e < |s| && Terminated(s, e) && s[e] == ';'
    ensures var t := s[e := NUL]; Terminated(t, b) && Terminated(t, e + 1)
  {
    var k :| e <= k < |s| && s[k] == NUL;
    assert s[e := NUL][k] == NUL;
  }

  lemma NextTerminated(s: seq<char>, p: nat)
    requires Terminated(s, p)
    ensures p < |s| && (s[p] != NUL ==> Terminated(s, p + 1))
    ensures forall q: nat :: q <= p ==> Terminated(s, q)
  {
    var k :| p <= k < |s| && s[k] == NUL;
  }

  /** strtok_r with the delimiter ";" from the position `at`: the position of the next token, now ending in a NUL, and
      where to go on; -1 if there is none. */
  method StrtokR(buffer: array<char>, at: nat) returns (token: int, save: nat)
    requires Terminated(buffer[..], at)
    modifies buffer
    ensures Terminated(buffer[..], save)
    ensures token == -1 <==> Tokens(StringAt(old(buffer[..]), at)) == []
    ensures token == -1 ==> buffer[..] == old(buffer[..])
    ensures token != -1 ==>
      && at <= token < save <= buffer.Length && Terminated(buffer[..], token)
      && Tokens(StringAt(old(buffer[..]), at)) == [StringAt(buffer[..], token)] + Tokens(StringAt(buffer[..], save))
    ensures forall k :: 0 <= k < buffer.Length ==>
      buffer[k] == old(buffer[k]) || (buffer[k] == NUL && old(buffer[k]) == ';')
  {
    hide Terminated, StringAt, Tokens;
    ghost var was := buffer[..];
    var b := at;
    NextTerminated(was, b);
    while buffer[b] == ';'
      invariant at <= b < buffer.Length && buffer[..] == was && Terminated(was, b)
      invariant Tokens(StringAt(was, at)) == Tokens(StringAt(was, b))
      decreases buffer.Length - b
    {
      Skipped(was, b);
      NextTerminated(was, b);
      b := b + 1;
      NextTerminated(was, b);
    }
    if buffer[b] == NUL {
      NoToken(was, b);
      return -1, b;
    }
    NextTerminated(was, b);
    var e := b + 1;
    NextTerminated(was, e);
    while buffer[e] != NUL && buffer[e] != ';'
      invariant b < e < buffer.Length && buffer[..] == was && Terminated(was, e) && Word(was, b, e)
      decreases buffer.Length - e
    {
      NextTerminated(was, e);
      e := e + 1;
      NextTerminated(was, e);
    }
    if buffer[e] == NUL {
      CutAtEnd(was, b, e);
      NextTerminated(was, e);
      return b, e;
    }
    Cut(was, b, e);
    StillTerminated(was, b, e);
    buffer[e] := NUL;
    assert buffer[..] == was[e := NUL];
    return b, e + 1;
  }

  lemma NotInString(s: seq<char>, p: nat, q: nat, c: char)
    requires p <= q < |s| && s[q] == NUL && forall k :: p <= k < q ==> s[k] != c && s[k] != NUL
    ensures c !in StringAt(s, p)
  {
    StringUntil(s, p, q);
    assert s[p..q] + [] == s[p..q];
  }

  lemma AfterIt(word: string, c: char, rest: string)
    ensures var t := word + [c] + rest; c in t && t[|word| + 1..] == rest
    ensures word + ([c] + rest) == word + [c] + rest
  {
    assert (word + [c] + rest)[|word|] == c;
  }

  lemma FirstInString(s: seq<char>, p: nat, q: nat)
    requires p <= q < |s| && s[q] != NUL && forall k :: p <= k < q ==> s[k] != s[q] && s[k] != NUL
    ensures s[q] in StringAt(s, p) && Find(StringAt(s, p), s[q]) == q - p < |StringAt(s, p)|
    ensures StringAt(s, q + 1) == StringAt(s, p)[q - p + 1..]
  {
    var word, rest := s[p..q], StringAt(s, q + 1);
    StringUntil(s, p, q);
    assert StringAt(s, q) == [s[q]] + rest;
    hide StringAt, Find;
    FoundAt(word, s[q], rest);
    AfterIt(word, s[q], rest);
    assert StringAt(s, p) == word + [s[q]] + rest;
  }

  /** strchr: the position of the first `c` in the string at `p`, or -1. */
  method StrChr(buffer: array<char>, p: nat, c: char) returns (q: int)
    requires Terminated(buffer[..], p) && c != NUL
    ensures q == -1 <==> c !in StringAt(buffer[..], p)
    ensures q != -1 ==>
      && p <= q < buffer.Length && Terminated(buffer[..], q + 1)
      && Find(StringAt(buffer[..], p), c) == q - p < |StringAt(buffer[..], p)|
      && StringAt(buffer[..], q + 1) == StringAt(buffer[..], p)[q - p + 1..]
  {
    hide Terminated, StringAt, Find;
    ghost var s := buffer[..];
    q := p;
    NextTerminated(s, q);
    while buffer[q] != NUL
      invariant p <= q < |s| && Terminated(s, q)
      invariant forall k :: p <= k < q ==> s[k] != c && s[k] != NUL
      decreases buffer.Length - q
    {
      NextTerminated(s, q);
      if buffer[q] == c {
        FirstInString(s, p, q);
        return;
      }
      q := q + 1;
      NextTerminated(s, q);
    }
    NotInString(s, p, q, c);
    q := -1;
  }

  /** strlcpy into a buffer of `size` characters. */
  method StrLcpy(dst: array<char>, src: array<char>, p: nat, size: nat)
    requires 0 < size <= dst.Length && dst != src && Terminated(src[..], p)
    modifies dst
    ensures Terminated(dst[..], 0) && StringAt(dst[..], 0) == Fit(StringAt(src[..], p), size)
  {
    var i := 0;
    ghost var s := src[..];
    while i < size - 1 && src[p + i] != NUL
      invariant i < size && src[..] == s && p + i < |s| && Terminated(s, p + i)
      invariant forall k :: p <= k < p + i ==> dst[k - p] == s[k] != NUL
    {
      dst[i] := src[p + i];
      i := i + 1;
    }
    dst[i] := NUL;
    assert forall k :: 0 <= k < i ==> dst[k] == s[p + k] != NUL;
    StringUntil(dst[..], 0, i);
    StringUntil(s, p, p + i);
    assert dst[..][0..i] == s[p..p + i];
  }

  /** Copying as much of the token as its attribute and the buffer allow copies the attribute as far as it fits. */
  lemma FitAttribute(token: string, size: nat)
    requires size > 0 && '=' in token
    ensures var k := Find(token, '=');
      Fit(token, if k + 1 > size then size else k + 1) == Fit(token[..k], size)
  {
  }

  lemma EmptyAtNul(s: seq<char>)
    requires s != [] && s[0] == NUL
    ensures StringAt(s, 0) == []
  {
  }

  const METADATA_PARSING_CONTINUE: int := 0
  const METADATA_PARSING_DONE: int := 1

  /** parse_metadata: the next token's attribute and value, each as far as it fits. */
  method ParseMetadata(metadata: array<char>, at: nat, attribute: array<char>, value: array<char>)
    returns (r: int, save: nat)
    requires Terminated(metadata[..], at) && attribute.Length > 0 && value.Length > 0
    requires metadata != attribute && metadata != value && attribute != value
    modifies metadata, attribute, value
    ensures Terminated(metadata[..], save)
    ensures var tokens := Tokens(StringAt(old(metadata[..]), at));
      if tokens == [] then r == METADATA_PARSING_DONE
      else
        && r == METADATA_PARSING_CONTINUE && save <= metadata.Length
        && Tokens(StringAt(metadata[..], save)) == tokens[1..]
        && StringAt(attribute[..], 0) == Attribute(tokens[0], attribute.Length)
        && StringAt(value[..], 0) == Value(tokens[0], value.Length)
  {
    hide StringAt;
    hide Tokens;
    hide Terminated;
    hide Fit;
    hide Find;
    var token;
    token, save := StrtokR(metadata, at);
    if token == -1 {
      return METADATA_PARSING_DONE, save;
    }
    ghost var cut := metadata[..];
    attribute[0], value[0] := NUL, NUL;
    EmptyAtNul(attribute[..]);
    EmptyAtNul(value[..]);
    assert metadata[..] == cut;
    var delim := StrChr(metadata, token, '=');
    if delim != -1 {
      var attributeLen := delim - token;
      var bytesToCopy := if attributeLen + 1 > attribute.Length then attribute.Length else attributeLen + 1;
      FitAttribute(StringAt(metadata[..], token), attribute.Length);
      StrLcpy(attribute, metadata, token, bytesToCopy);
      StrLcpy(value, metadata, delim + 1, value.Length);
    }
    return METADATA_PARSING_CONTINUE, save;
  }

  class VideoMetadata {
    var hintId: int
    var state: int

    constructor (hintId: int, state: int)
      ensures this.hintId == hintId && this.state == state
    {
      this.hintId, this.state := hintId, state;
    }
  }

  /** parse_video_encode_metadata and parse_video_decode_metadata, which have the same body. */
  method ParseVideoMetadata(metadata: array<char>, video: VideoMetadata) returns (r: int)
    requires Terminated(metadata[..], 0)
    modifies metadata, video
    ensures r == 0
    ensures Fields(video.hintId, video.state)
         == Parsed(old(Fields(video.hintId, video.state)), StringAt(old(metadata[..]), 0))
  {
    var attribute, value := new char[BUFFER_SIZE], new char[BUFFER_SIZE];
    ghost var rest := Tokens(StringAt(metadata[..], 0));
    var status: int, save: nat;
    status, save := ParseMetadata(metadata, 0, attribute, value);
    while status == METADATA_PARSING_CONTINUE
      invariant Terminated(metadata[..], save)
      invariant status == METADATA_PARSING_CONTINUE ==>
        && rest != [] && save <= metadata.Length && Tokens(StringAt(metadata[..], save)) == rest[1..]
        && StringAt(attribute[..], 0) == Attribute(rest[0], BUFFER_SIZE)
        && StringAt(value[..], 0) == Value(rest[0], BUFFER_SIZE)
      invariant status != METADATA_PARSING_CONTINUE ==> rest == [] && status == METADATA_PARSING_DONE
      invariant SetAll(Fields(video.hintId, video.state), rest)
             == Parsed(old(Fields(video.hintId, video.state)), StringAt(old(metadata[..]), 0))
      decreases |rest|
    {
      if StringAt(attribute[..], 0) == "hint_id" {
        if StringAt(value[..], 0) != "" {
          video.hintId := Atoi(StringAt(value[..], 0));
        }
      }
      if StringAt(attribute[..], 0) == "state" {
        if StringAt(value[..], 0) != "" {
          video.state := Atoi(StringAt(value[..], 0));
        }
      }
      rest := rest[1..];
      status, save := ParseMetadata(metadata, save, attribute, value);
    }
    return 0;
  }
}
