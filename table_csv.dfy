/** table/csv.go: a table over a CSV reader, built by applying creation options in order.
    LoadCSVHeaders takes the headers from the first line that is not a comment. */
module TableCsv {
  import opened Wrappers
  import opened Host

  // ----- Text helpers -----

  /** The position of the first c in s. */
  function FirstIndexOf(s: string, c: char): (r: Option<nat>)
    ensures r.Some? ==> r.value < |s| && s[r.value] == c && c !in s[..r.value]
    ensures r.None? ==> c !in s
  {
    if |s| == 0 then None
    else if s[0] == c then Some(0)
    else match FirstIndexOf(s[1..], c)
      case None => None
      case Some(k) => Some(k + 1)
  }

  /** A c preceded by no other c is the first. */
  lemma FirstIndexAt(s: string, c: char, k: nat)
    requires k < |s| && s[k] == c && c !in s[..k]
    ensures FirstIndexOf(s, c) == Some(k)
  {
    var f := FirstIndexOf(s, c);
    assert c in s;
    assert f.Some?;
    forall j | 0 <= j < k
      ensures s[j] != c
    {
      assert s[j] == s[..k][j];
    }
    forall j | 0 <= j < f.value
      ensures s[j] != c
    {
      assert s[j] == s[..f.value][j];
    }
  }

  /** strings.Split with a one-character separator: the pieces between separators, so
      one more piece than there are separators. */
  function Split(s: string, sep: char): (r: seq<string>)
    ensures |r| > 0
    ensures forall i :: 0 <= i < |r| ==> sep !in r[i]
    decreases |s|
  {
    match FirstIndexOf(s, sep)
    case None => [s]
    case Some(k) => [s[..k]] + Split(s[k + 1..], sep)
  }

  /** strings.Join, the inverse of Split. */
  function Join(pieces: seq<string>, sep: char): string
    requires |pieces| > 0
  {
    if |pieces| == 1 then pieces[0] else pieces[0] + [sep] + Join(pieces[1..], sep)
  }

  /** Joining the pieces of s gives s back. */
  lemma {:induction false} SplitJoin(s: string, sep: char)
    ensures Join(Split(s, sep), sep) == s
    decreases |s|
  {
    match FirstIndexOf(s, sep)
    case None =>
    case Some(k) =>
      SplitJoin(s[k + 1..], sep);
      assert s == s[..k] + [sep] + s[k + 1..];
  }

  /** Splitting a join of separator-free pieces gives the pieces back. */
  lemma {:induction false} JoinSplit(pieces: seq<string>, sep: char)
    requires |pieces| > 0
    requires forall i :: 0 <= i < |pieces| ==> sep !in pieces[i]
    ensures Split(Join(pieces, sep), sep) == pieces
    decreases |pieces|
  {
    var s := Join(pieces, sep);
    if |pieces| == 1 {
      assert FirstIndexOf(s, sep).None?;
    } else {
      var rest := Join(pieces[1..], sep);
      var k := |pieces[0]|;
      assert s[k] == sep && s[..k] == pieces[0] && s[k + 1..] == rest;
      FirstIndexAt(s, sep, k);
      JoinSplit(pieces[1..], sep);
      assert pieces == [pieces[0]] + pieces[1..];
    }
  }

  // ----- Reading lines -----

  /** The reader a table reads: the text it still holds, then the error it reports once
      that text is used up (None is io.EOF). */
  datatype Input = Input(text: string, failure: Option<Error>)

  /** How a ReadString call ended: at the delimiter, at io.EOF, or at another error. */
  datatype LineStatus = Complete | AtEnd | Broken(err: Error)

  /** bufio.Reader.ReadString('\n'): the text up to and including the first newline; with
      no newline left, all the remaining text and the reader's final error. The returned
      text is consumed either way. */
  function ReadLine(src: Input): (r: (string, LineStatus, Input))
    ensures r.1.Complete? ==> && |r.0| > 0 && r.0[|r.0| - 1] == '\n' && '\n' !in r.0[..|r.0| - 1]
                              && src.text == r.0 + r.2.text && r.2.failure == src.failure
    ensures !r.1.Complete? ==> && '\n' !in src.text && r.0 == src.text && r.2 == Input([], src.failure)
                               && (r.1.AtEnd? <==> src.failure.None?)
                               && (r.1.Broken? ==> r.1.err == src.failure.value)
  {
    match FirstIndexOf(src.text, '\n')
    case Some(k) =>
      assert src.text == src.text[..k + 1] + src.text[k + 1..];
      assert src.text[..k + 1][..k] == src.text[..k];
      (src.text[..k + 1], Complete, Input(src.text[k + 1..], src.failure))
    case None =>
      (src.text, if src.failure.None? then AtEnd else Broken(src.failure.value), Input([], src.failure))
  }

  predicate IsComment(line: string)
  {
    |line| > 0 && line[0] == '#'
  }

  /** What the comment-skipping loop finds: a header line (with its newline), the end of
      the input, or a read error. */
  datatype Found = Header(line: string) | NoHeader | ReadFailed(err: Error)

  /** The comment-skipping loop of LoadCSVHeaders: the reader afterwards and what it found. */
  function SkipComments(src: Input): (r: (Input, Found))
    ensures r.1.Header? ==> && |r.1.line| > 0 && r.1.line[|r.1.line| - 1] == '\n' && !IsComment(r.1.line)
                            && '\n' !in r.1.line[..|r.1.line| - 1]
    ensures r.0.failure == src.failure
    decreases |src.text|
  {
    var (line, status, rest) := ReadLine(src);
    match status
    case AtEnd => (rest, NoHeader)
    case Broken(e) => (rest, ReadFailed(e))
    case Complete => if IsComment(line) then SkipComments(rest) else (rest, Header(line))
  }

  /** A comment line before the header is read and dropped. */
  lemma CommentSkipped(comment: string, rest: Input)
    requires IsComment(comment) && '\n' !in comment
    ensures SkipComments(Input(comment + "\n" + rest.text, rest.failure)) == SkipComments(rest)
  {
    var src := Input(comment + "\n" + rest.text, rest.failure);
    assert src.text[|comment|] == '\n' && src.text[..|comment|] == comment;
    FirstIndexAt(src.text, '\n', |comment|);
    assert src.text[..|comment| + 1] == comment + "\n" && src.text[|comment| + 1..] == rest.text;
  }

  /** A line that is not a comment, read from a reader, is the header line and the text
      after it is left unread. */
  lemma HeaderFound(line: string, rest: Input)
    requires !IsComment(line) && '\n' !in line
    ensures SkipComments(Input(line + "\n" + rest.text, rest.failure)) == (rest, Header(line + "\n"))
  {
    var src := Input(line + "\n" + rest.text, rest.failure);
    assert src.text[|line|] == '\n' && src.text[..|line|] == line;
    FirstIndexAt(src.text, '\n', |line|);
    assert src.text[..|line| + 1] == line + "\n" && src.text[|line| + 1..] == rest.text;
    assert !IsComment(line + "\n") by {
      if |line| > 0 {
        assert (line + "\n")[0] == line[0];
      }
    }
  }

  /** Without a newline there is no header line: all the text is consumed, and the reader's
      final error, io.EOF or not, is what is found. */
  lemma NoNewlineNoHeader(src: Input)
    requires '\n' !in src.text
    ensures SkipComments(src).0 == Input([], src.failure)
    ensures SkipComments(src).1 == if src.failure.None? then NoHeader else ReadFailed(src.failure.value)
  {
  }

  // ----- Unquoting the headers -----

  /** The unquoting loop from piece i on: each piece is replaced by strconv.Unquote of it;
      at the first failure that piece becomes "" and the loop stops with the error. */
  function UnquoteFrom(lib: Library, hs: seq<string>, i: nat): (r: (seq<string>, Option<Error>))
    ensures |r.0| == |hs|
    decreases |hs| - i
  {
    if i >= |hs| then (hs, None)
    else match lib.unquote(hs[i])
      case None => (hs[i := ""], Some(InvalidSyntax))
      case Some(u) => UnquoteFrom(lib, hs[i := u], i + 1)
  }

  /** When every piece from i on unquotes, each is replaced by its unquoting, the pieces
      before i are left alone, and there is no error. */
  lemma {:induction false} UnquoteAll(lib: Library, hs: seq<string>, i: nat)
    requires i <= |hs|
    requires forall j :: i <= j < |hs| ==> lib.unquote(hs[j]).Some?
    ensures UnquoteFrom(lib, hs, i).1 == None
    ensures forall j :: 0 <= j < i ==> UnquoteFrom(lib, hs, i).0[j] == hs[j]
    ensures forall j :: i <= j < |hs| ==> UnquoteFrom(lib, hs, i).0[j] == lib.unquote(hs[j]).value
    decreases |hs| - i
  {
    if i < |hs| {
      var next := hs[i := lib.unquote(hs[i]).value];
      assert UnquoteFrom(lib, hs, i) == UnquoteFrom(lib, next, i + 1);
      UnquoteAll(lib, next, i + 1);
    }
  }

  /** When piece k is the first from i on that fails to unquote, the pieces from i up to k
      are unquoted, piece k becomes "", the pieces after it are left as read, and the
      error is strconv's syntax error. */
  lemma {:induction false} UnquoteStops(lib: Library, hs: seq<string>, i: nat, k: nat)
    requires i <= k < |hs| && lib.unquote(hs[k]).None?
    requires forall j :: i <= j < k ==> lib.unquote(hs[j]).Some?
    ensures UnquoteFrom(lib, hs, i).1 == Some(InvalidSyntax)
    ensures forall j :: 0 <= j < i ==> UnquoteFrom(lib, hs, i).0[j] == hs[j]
    ensures forall j :: i <= j < k ==> UnquoteFrom(lib, hs, i).0[j] == lib.unquote(hs[j]).value
    ensures UnquoteFrom(lib, hs, i).0[k] == ""
    ensures forall j :: k < j < |hs| ==> UnquoteFrom(lib, hs, i).0[j] == hs[j]
    decreases k - i
  {
    if i < k {
      var next := hs[i := lib.unquote(hs[i]).value];
      assert UnquoteFrom(lib, hs, i) == UnquoteFrom(lib, next, i + 1);
      UnquoteStops(lib, next, i + 1, k);
    }
  }

  // ----- LoadCSVHeaders and CSVHeaders -----

  /** LoadCSVHeaders, applied to a reader and the current headers: the reader afterwards,
      the headers afterwards, and the error returned. The header line loses its final
      character (the newline) and is split on commas before the pieces are unquoted. */
  function LoadCSVHeadersSpec(lib: Library, src: Input, headers: seq<string>): (seq<string>, Input, Option<Error>)
  {
    var (rest, found) := SkipComments(src);
    match found
    case NoHeader => (headers, rest, None)
    case ReadFailed(e) => (headers, rest, Some(e))
    case Header(line) =>
      var (hs, err) := UnquoteFrom(lib, Split(line[..|line| - 1], ','), 0);
      (hs, rest, err)
  }

  /** A header line of pieces that all unquote: the headers are the unquoted pieces, in
      order, and the reader is left just after the line. */
  lemma HeadersFromLine(lib: Library, pieces: seq<string>, rest: Input, headers: seq<string>)
    requires |pieces| > 0 && (forall i :: 0 <= i < |pieces| ==> ',' !in pieces[i] && '\n' !in pieces[i])
    requires !IsComment(Join(pieces, ','))
    requires forall i :: 0 <= i < |pieces| ==> lib.unquote(pieces[i]).Some?
    ensures var (hs, after, err) := LoadCSVHeadersSpec(lib, Input(Join(pieces, ',') + "\n" + rest.text, rest.failure), headers);
            && err == None && after == rest && |hs| == |pieces|
            && forall i :: 0 <= i < |pieces| ==> hs[i] == lib.unquote(pieces[i]).value
  {
    var line := Join(pieces, ',');
    NoNewlineInJoin(pieces, ',');
    HeaderFound(line, rest);
    assert (line + "\n")[..|line + "\n"| - 1] == line;
    JoinSplit(pieces, ',');
    UnquoteAll(lib, pieces, 0);
  }

  /** No newline in the pieces, none in their join. */
  lemma {:induction false} NoNewlineInJoin(pieces: seq<string>, sep: char)
    requires |pieces| > 0 && sep != '\n'
    requires forall i :: 0 <= i < |pieces| ==> '\n' !in pieces[i]
    ensures '\n' !in Join(pieces, sep)
    decreases |pieces|
  {
    if |pieces| > 1 {
      NoNewlineInJoin(pieces[1..], sep);
    }
  }

  /** The fields the creation options set: the reader and the headers. */
  datatype Def = Def(source: Input, headers: seq<string>)

  /** The creation options table/csv.go defines. */
  datatype Opt = LoadCSVHeaders | CSVHeaders(headers: seq<string>)

  /** One option applied to d: its error, or the fields after it. */
  function OptSpec(lib: Library, d: Def, o: Opt): Result<Def>
  {
    match o
    case LoadCSVHeaders =>
      var (hs, rest, err) := LoadCSVHeadersSpec(lib, d.source, d.headers);
      if err.Some? then Err(err.value) else Ok(Def(rest, hs))
    case CSVHeaders(h) => Ok(d.(headers := h))
  }

  /** CSV: the options in order; the first error is the result. */
  function Run(lib: Library, d: Def, opts: seq<Opt>): Result<Def>
    decreases |opts|
  {
    if opts == [] then Ok(d)
    else match OptSpec(lib, d, opts[0])
      case Err(e) => Err(e)
      case Ok(next) => Run(lib, next, opts[1..])
  }

  /** Once an option fails, the options after it are never applied. */
  lemma {:induction false} FailureAborts(lib: Library, d: Def, before: seq<Opt>, after: seq<Opt>)
    requires Run(lib, d, before).Err?
    ensures Run(lib, d, before + after) == Run(lib, d, before)
    decreases |before|
  {
    assert before != [];
    var all := before + after;
    assert all[0] == before[0] && all[1..] == before[1..] + after;
    match OptSpec(lib, d, before[0])
    case Err(_) =>
    case Ok(next) => FailureAborts(lib, next, before[1..], after);
  }

  /** CSVHeaders consumes no input: the reader is left as it was. */
  lemma CSVHeadersReadsNothing(lib: Library, d: Def, h: seq<string>, more: seq<Opt>)
    ensures Run(lib, d, [CSVHeaders(h)] + more) == Run(lib, Def(d.source, h), more)
  {
    assert ([CSVHeaders(h)] + more)[1..] == more;
  }

  /** table.Table as table/csv.go uses it: a reader and the headers. */
  class Table {
    var source: Input
    var headers: seq<string>

    function Fields(): Def
      reads this
    {
      Def(source, headers)
    }

    /** Table{Source: source}. */
    constructor (source: Input)
      ensures Fields() == Def(source, [])
    {
      this.source := source;
      headers := [];
    }

    /** LoadCSVHeaders: skips comment lines, then splits and unquotes the header line in
        place. */
    method LoadCSVHeaders(lib: Library) returns (err: Option<Error>)
      modifies this
      ensures (headers, source, err) == LoadCSVHeadersSpec(lib, old(source), old(headers))
    {
      ghost var goal := SkipComments(source);
      var line: string;
      while true
        invariant SkipComments(source) == goal && headers == old(headers)
        decreases |source.text|
      {
        var (l, status, rest) := ReadLine(source);
        source := rest;
        if status.AtEnd? {
          return None;
        }
        if status.Broken? {
          return Some(status.err);
        }
        if IsComment(l) {
          continue;
        }
        line := l;
        break;
      }
      var pieces := Split(line[..|line| - 1], ',');
      headers := pieces;
      var i := 0;
      while i < |headers|
        invariant 0 <= i <= |headers| && source == goal.0
        invariant UnquoteFrom(lib, headers, i) == UnquoteFrom(lib, pieces, 0)
      {
        var u := lib.unquote(headers[i]);
        if u.None? {
          headers := headers[i := ""];
          return Some(InvalidSyntax);
        }
        headers := headers[i := u.value];
        i := i + 1;
      }
      return None;
    }

    /** CSVHeaders: only the headers change. */
    method CSVHeaders(h: seq<string>)
      modifies this
      ensures Fields() == old(Fields()).(headers := h)
    {
      headers := h;
    }

    method Apply(lib: Library, o: Opt) returns (err: Option<Error>)
      modifies this
      ensures err.None? ==> OptSpec(lib, old(Fields()), o) == Ok(Fields())
      ensures err.Some? ==> OptSpec(lib, old(Fields()), o) == Err(err.value)
    {
      match o {
        case LoadCSVHeaders =>
          err := LoadCSVHeaders(lib);
        case CSVHeaders(h) =>
          CSVHeaders(h);
          err := None;
      }
    }
  }

  /** CSV: a table over the source with the options applied in order. On the first
      failure the error is returned, with no table (Go returns an empty Table). */
  method CSV(lib: Library, source: Input, opts: seq<Opt>) returns (r: Result<Table>)
    ensures r.Ok? ==> fresh(r.value) && Run(lib, Def(source, []), opts) == Ok(r.value.Fields())
    ensures r.Err? ==> Run(lib, Def(source, []), opts) == Err(r.error)
  {
    var t := new Table(source);
    var i := 0;
    while i < |opts|
      invariant 0 <= i <= |opts| && fresh(t)
      invariant Run(lib, t.Fields(), opts[i..]) == Run(lib, Def(source, []), opts)
    {
      assert opts[i..][0] == opts[i] && opts[i..][1..] == opts[i + 1..];
      var err := t.Apply(lib, opts[i]);
      if err.Some? {
        return Err(err.value);
      }
      i := i + 1;
    }
    return Ok(t);
  }
}
