/** The format and encoder registries of formats.c: the lists formats and
    encoders are registered on, the choice of an output format from a short
    name, a file name and a MIME type, the lookup of an encoder by codec id,
    and the `strstart` prefix test.

    A C string is modelled by the characters before its terminating NUL; a
    NULL `const char *` by `None`. */
module Formats {
  import opened Bytes

  /** The part of an AVFormat the lookups read (its callbacks are left out). */
  datatype AVFormat = AVFormat(name: Option<string>, longName: Option<string>, mimeType: Option<string>,
                               extensions: Option<string>, audioCodec: int, videoCodec: int)

  /** The part of an AVEncoder the lookup reads. */
  datatype AVEncoder = AVEncoder(name: string, codecType: int, id: int)

  // ---------------------------------------------------------------------
  // strstart

  /** strstart: whether `val` is a prefix of `str`; when it is and `ptr`
      is not NULL, `*ptr` is set to the rest of `str`, and otherwise it is
      left as it was (`ptr` stands for `*ptr`, `None` for a NULL `ptr`). */
  method StrStart(str: string, val: string, ptr: Option<string>) returns (found: bool, ptr': Option<string>)
    ensures found <==> val <= str
    ensures found && ptr.Some? ==> ptr' == Some(str[|val|..])
    ensures !found || ptr.None? ==> ptr' == ptr
  {
    var p := 0;
    var q := 0;
    while q < |val|
      invariant p == q <= |val| && q <= |str|
      invariant val[..q] == str[..q]
    {
      if p == |str| || str[p] != val[q] {
        return false, ptr;
      }
      p := p + 1;
      q := q + 1;
    }
    assert val == str[..|val|];
    found := true;
    ptr' := if ptr.Some? then Some(str[p..]) else ptr;
  }

  // ---------------------------------------------------------------------
  // Case-insensitive comparison and the extension list

  /** tolower in the C locale. */
  function Lower(c: char): char
  {
    if 'A' <= c <= 'Z' then (c as int + 32) as char else c
  }

  /** strcasecmp(a, b) == 0. */
  predicate EqualIgnoringCase(a: string, b: string)
  {
    |a| == |b| && forall i :: 0 <= i < |a| ==> Lower(a[i]) == Lower(b[i])
  }

  /** The index of the first ',' in `s`, or `|s|` when there is none. */
  function CommaAt(s: string): (r: nat)
    ensures r <= |s| && (r < |s| ==> s[r] == ',')
    ensures forall i :: 0 <= i < r ==> s[i] != ','
  {
    if s == [] || s[0] == ',' then 0 else 1 + CommaAt(s[1..])
  }

  /** The comma-separated entries of an extension list, empty entries
      included ("mpg,mpeg" has two, "" has one, "mp2," has two). */
  function Tokens(s: string): (ts: seq<string>)
    ensures |ts| > 0
    decreases |s|
  {
    var c := CommaAt(s);
    if c == |s| then [s] else [s[..c]] + Tokens(s[c + 1..])
  }

  /** Whether some entry of the list equals `ext`, ignoring case. */
  predicate MatchesAny(tokens: seq<string>, ext: string)
  {
    exists i :: 0 <= i < |tokens| && EqualIgnoringCase(tokens[i], ext)
  }

  /** Entries short enough for the 32-byte `ext1` copy buffer. */
  predicate ShortTokens(s: string)
  {
    forall t :: t in Tokens(s) ==> |t| < 32
  }

  /** strrchr(s, '.'): the index of the last '.' in `s`, or -1 when
      there is none. */
  function LastDot(s: string): (r: int)
    ensures -1 <= r < |s| && (r >= 0 ==> s[r] == '.')
    ensures forall i :: r < i < |s| ==> s[i] != '.'
  {
    if s == [] then -1
    else if s[|s| - 1] == '.' then |s| - 1
    else LastDot(s[..|s| - 1])
  }

  /** The text after the last '.' of a file name, if any. */
  function Extension(filename: string): (r: Option<string>)
    ensures r.None? <==> '.' !in filename
    ensures r.Some? ==> exists i :: 0 <= i < |filename| && filename[i] == '.' &&
                                    '.' !in filename[i + 1..] && r.value == filename[i + 1..]
  {
    var d := LastDot(filename);
    if d < 0 then None
    else
      Some(filename[d + 1..])
  }

  /** An extension list written out from its entries. */
  function Join(ts: seq<string>): string
    requires |ts| > 0
  {
    if |ts| == 1 then ts[0] else ts[0] + [','] + Join(ts[1..])
  }

  /** Splitting a list written out from comma-free entries gives the
      entries back. */
  lemma {:induction false} TokensJoin(ts: seq<string>)
    requires |ts| > 0 && forall i :: 0 <= i < |ts| ==> ',' !in ts[i]
    ensures Tokens(Join(ts)) == ts
  {
    var s := Join(ts);
    if |ts| == 1 {
      CommaAtIs(s, |s|);
    } else {
      CommaAtIs(s, |ts[0]|);
      assert s[..|ts[0]|] == ts[0];
      assert s[|ts[0]| + 1..] == Join(ts[1..]);
      TokensJoin(ts[1..]);
    }
  }

  /** The extension of "base.ext" is "ext" when "ext" has no '.'. */
  lemma ExtensionOf(base: string, ext: string)
    requires '.' !in ext
    ensures Extension(base + ['.'] + ext) == Some(ext)
  {
    var f := base + ['.'] + ext;
    LastDotIs(f, |base|);
    assert f[|base| + 1..] == ext;
  }

  lemma {:induction false} LastDotIs(s: string, k: nat)
    requires k < |s| && s[k] == '.'
    requires forall i :: k < i < |s| ==> s[i] != '.'
    ensures LastDot(s) == k
    decreases |s|
  {
    if k < |s| - 1 {
      LastDotIs(s[..|s| - 1], k);
    }
  }

  /** The entry starting at `p` runs to the next comma or the end. */
  lemma TokensAt(s: string, p: nat, k: nat)
    requires p <= k <= |s| && (k < |s| ==> s[k] == ',')
    requires forall i :: p <= i < k ==> s[i] != ','
    ensures Tokens(s[p..]) == [s[p..k]] + (if k == |s| then [] else Tokens(s[k + 1..]))
  {
    var t := s[p..];
    CommaAtIs(t, k - p);
    if k < |s| {
      assert t[..k - p] == s[p..k];
      assert t[k - p + 1..] == s[k + 1..];
    } else {
      assert t == s[p..k];
    }
  }

  /** A list matches when its first entry does or the rest does. */
  lemma MatchesCons(head: string, rest: seq<string>, ext: string)
    ensures MatchesAny([head] + rest, ext) <==> EqualIgnoringCase(head, ext) || MatchesAny(rest, ext)
  {
    var ts := [head] + rest;
    if MatchesAny(rest, ext) {
      var i :| 0 <= i < |rest| && EqualIgnoringCase(rest[i], ext);
      assert ts[i + 1] == rest[i];
    }
    if MatchesAny(ts, ext) {
      var i :| 0 <= i < |ts| && EqualIgnoringCase(ts[i], ext);
      if i > 0 {
        assert rest[i - 1] == ts[i];
      }
    }
    if EqualIgnoringCase(head, ext) {
      assert ts[0] == head;
    }
  }

  /** The list from `p` matches when its first entry, which ends at `k`,
      does or the list after that comma does. */
  lemma MatchFrom(s: string, p: nat, k: nat, ext: string)
    requires p <= k <= |s| && (k < |s| ==> s[k] == ',')
    requires forall i :: p <= i < k ==> s[i] != ','
    ensures MatchesAny(Tokens(s[p..]), ext) <==>
            EqualIgnoringCase(s[p..k], ext) || (k < |s| && MatchesAny(Tokens(s[k + 1..]), ext))
  {
    TokensAt(s, p, k);
    var rest := if k == |s| then [] else Tokens(s[k + 1..]);
    MatchesCons(s[p..k], rest, ext);
  }

  lemma {:induction false} CommaAtIs(s: string, k: nat)
    requires k <= |s| && (k < |s| ==> s[k] == ',')
    requires forall i :: 0 <= i < k ==> s[i] != ','
    ensures CommaAt(s) == k
  {
    if k > 0 {
      CommaAtIs(s[1..], k - 1);
    }
  }

  /** The extension loop of guess_format: the entries of `extensions` are
      copied one at a time into `ext1` and compared with `ext` ignoring
      case, stopping at the first that matches. */
  method MatchExtension(extensions: string, ext: string) returns (found: bool)
    requires ShortTokens(extensions)
    ensures found <==> MatchesAny(Tokens(extensions), ext)
  {
    var p := 0;
    while true
      invariant p <= |extensions|
      invariant MatchesAny(Tokens(extensions), ext) <==> MatchesAny(Tokens(extensions[p..]), ext)
      decreases |extensions| - p
    {
      var ext1, k := CopyEntry(extensions, p);
      MatchFrom(extensions, p, k, ext);
      if EqualIgnoringCase(ext1, ext) {
        return true;
      }
      if k == |extensions| {
        return false;
      }
      p := k + 1;
    }
  }

  /** The inner copy loop of guess_format: the characters from `p` up to
      the next ',' (or the end), and where they stop. */
  method CopyEntry(s: string, p: nat) returns (entry: string, k: nat)
    requires p <= |s|
    ensures p <= k <= |s| && entry == s[p..k] && (k < |s| ==> s[k] == ',')
    ensures forall i :: p <= i < k ==> s[i] != ','
  {
    entry := [];
    k := p;
    while k < |s| && s[k] != ','
      invariant p <= k <= |s| && entry == s[p..k]
      invariant forall i :: p <= i < k ==> s[i] != ','
    {
      entry := entry + [s[k]];
      k := k + 1;
    }
  }

  // ---------------------------------------------------------------------
  // Scoring

  /** The score guess_format gives `fmt`: 100 for the short name, 10 for
      the MIME type, 5 when an entry of its extension list matches the file
      name's extension. */
  function Score(fmt: AVFormat, shortName: Option<string>, filename: Option<string>, mimeType: Option<string>): nat
  {
    (if fmt.name.Some? && shortName.Some? && fmt.name.value == shortName.value then 100 else 0) +
    (if fmt.mimeType.Some? && mimeType.Some? && fmt.mimeType.value == mimeType.value then 10 else 0) +
    (if filename.Some? && fmt.extensions.Some? && Extension(filename.value).Some? &&
        MatchesAny(Tokens(fmt.extensions.value), Extension(filename.value).value) then 5 else 0)
  }

  /** The name outweighs the MIME type and the extension together, and
      the MIME type outweighs the extension. */
  lemma ScoreOrder(a: AVFormat, b: AVFormat, shortName: Option<string>, filename: Option<string>,
                   mimeType: Option<string>)
    requires shortName.Some? && a.name == shortName && b.name != shortName
    ensures Score(a, shortName, filename, mimeType) > Score(b, shortName, filename, mimeType)
  {
  }

  // ---------------------------------------------------------------------
  // The registries

  class Registry {
    /** first_format's list, in registration order. */
    var formats: seq<AVFormat>
    /** first_encoder's list, in registration order. */
    var encoders: seq<AVEncoder>

    constructor ()
      ensures formats == [] && encoders == []
    {
      formats := [];
      encoders := [];
    }

    /** register_avformat: `format` goes at the tail of the list. */
    method RegisterFormat(format: AVFormat)
      modifies this
      ensures formats == old(formats) + [format] && encoders == old(encoders)
    {
      formats := formats + [format];
    }

    /** register_avencoder: `encoder` goes at the tail of the list. */
    method RegisterEncoder(encoder: AVEncoder)
      modifies this
      ensures encoders == old(encoders) + [encoder] && formats == old(formats)
    {
      encoders := encoders + [encoder];
    }

    /** avencoder_find: the first encoder registered for codec `id`, or
        NULL (`None`) when there is none. */
    method FindEncoder(id: int) returns (r: Option<nat>)
      ensures r.None? <==> forall i :: 0 <= i < |encoders| ==> encoders[i].id != id
      ensures r.Some? ==> r.value < |encoders| && encoders[r.value].id == id &&
                          forall i :: 0 <= i < r.value ==> encoders[i].id != id
    {
      var i := 0;
      while i < |encoders|
        invariant i <= |encoders|
        invariant forall j :: 0 <= j < i ==> encoders[j].id != id
      {
        if encoders[i].id == id {
          return Some(i);
        }
        i := i + 1;
      }
      return None;
    }

    /** guess_format: the earliest registered format with the highest
        positive score, or NULL (`None`) when every format scores 0. */
    method GuessFormat(shortName: Option<string>, filename: Option<string>, mimeType: Option<string>)
      returns (found: Option<nat>)
      requires forall i :: 0 <= i < |formats| && formats[i].extensions.Some? ==>
                 ShortTokens(formats[i].extensions.value)
      ensures found.None? <==> forall i :: 0 <= i < |formats| ==> Score(formats[i], shortName, filename, mimeType) == 0
      ensures found.Some? ==> found.value < |formats|
      ensures found.Some? && found.value < |formats| ==>
        var best := Score(formats[found.value], shortName, filename, mimeType);
        best > 0 &&
        (forall i :: 0 <= i < found.value ==> Score(formats[i], shortName, filename, mimeType) < best) &&
        (forall i :: 0 <= i < |formats| ==> Score(formats[i], shortName, filename, mimeType) <= best)
    {
      found := None;
      var scoreMax := 0;
      var k := 0;
      while k < |formats|
        invariant k <= |formats|
        invariant found.None? ==> scoreMax == 0
        invariant found.Some? ==> found.value < k && scoreMax == Score(formats[found.value], shortName, filename, mimeType) > 0
        invariant forall i :: 0 <= i < k ==> Score(formats[i], shortName, filename, mimeType) <= scoreMax
        invariant found.Some? ==> forall i :: 0 <= i < found.value ==> Score(formats[i], shortName, filename, mimeType) < scoreMax
      {
        var score := ScoreFormat(formats[k], shortName, filename, mimeType);
        if score > scoreMax {
          scoreMax := score;
          found := Some(k);
        }
        k := k + 1;
      }
    }
  }

  /** The body of guess_format's loop for one format. */
  method ScoreFormat(fmt: AVFormat, shortName: Option<string>, filename: Option<string>, mimeType: Option<string>)
    returns (score: nat)
    requires fmt.extensions.Some? ==> ShortTokens(fmt.extensions.value)
    ensures score == Score(fmt, shortName, filename, mimeType)
  {
    score := 0;
    if fmt.name.Some? && shortName.Some? && fmt.name.value == shortName.value {
      score := score + 100;
    }
    if fmt.mimeType.Some? && mimeType.Some? && fmt.mimeType.value == mimeType.value {
      score := score + 10;
    }
    if filename.Some? && fmt.extensions.Some? {
      var ext := Extension(filename.value);
      if ext.Some? {
        var hit := MatchExtension(fmt.extensions.value, ext.value);
        if hit {
          score := score + 5;
        }
      }
    }
  }
}
