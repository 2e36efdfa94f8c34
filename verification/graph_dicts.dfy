/**
 * The public interchange shape of a knowledge graph,
 *   {"nodes": [{"id", "type", "gender"}], "relationships": [{"source", "target", "type"}]},
 * as the Python dictionaries hold it. A key that is absent from a dictionary is None.
 */
module GraphDicts {
  import opened Wrappers

  datatype NodeRecord = NodeRecord(id: Option<string>, nodeType: Option<string>, gender: Option<string>)

  datatype RelRecord = RelRecord(source: Option<string>, target: Option<string>, relType: Option<string>)

  datatype GraphDict = GraphDict(nodes: Option<seq<NodeRecord>>, relationships: Option<seq<RelRecord>>)

  /**
   * The text of str(e) for `e = KeyError(key)`, which is Python's repr of the key: the key
   * between quotes, with backslashes, the quote itself, tabs, line breaks and other ASCII
   * control characters escaped.
   */
  function KeyError(key: string): string
  {
    Repr(key)
  }

  /** A string literal as Python's repr writes it. */
  function Repr(s: string): (r: string)
    ensures |r| >= 2 && r[0] == r[|r| - 1] == QuoteOf(s)
  {
    [QuoteOf(s)] + Escape(s, QuoteOf(s)) + [QuoteOf(s)]
  }

  /** Single quotes, unless the string holds a single quote and no double quote. */
  function QuoteOf(s: string): (q: char)
    ensures q == '"' <==> '\'' in s && '"' !in s
    ensures q == '\'' || q == '"'
  {
    if '\'' in s && '"' !in s then '"' else '\''
  }

  function HexDigit(n: nat): char
    requires n < 16
  {
    "0123456789abcdef"[n]
  }

  /** The characters repr writes unchanged inside `quote`s. */
  predicate Unescaped(c: char, quote: char)
  {
    c != '\\' && c != quote && 32 <= c as int && c as int != 127
  }

  /** One character inside a repr with the given quote. */
  function EscapeChar(c: char, quote: char): (r: string)
    ensures Unescaped(c, quote) <==> r == [c]
    ensures !Unescaped(c, quote) ==> |r| >= 2 && r[0] == '\\'
  {
    if c == '\\' then "\\\\"
    else if c == quote then ['\\', c]
    else if c == '\t' then "\\t"
    else if c == '\n' then "\\n"
    else if c == '\r' then "\\r"
    else if c as int < 32 || c as int == 127 then
      ['\\', 'x', HexDigit(c as int / 16), HexDigit(c as int % 16)]
    else [c]
  }

  /** The body of a repr: every character escaped in turn. */
  function Escape(s: string, quote: char): string
  {
    EscapeFrom(s, quote, 0)
  }

  function EscapeFrom(s: string, quote: char, from: nat): string
    decreases |s| - from
  {
    if from >= |s| then [] else EscapeChar(s[from], quote) + EscapeFrom(s, quote, from + 1)
  }

  /** A string that needs no escaping is its own repr body. */
  lemma {:induction false} EscapeUnchanged(s: string, quote: char, from: nat)
    requires from <= |s|
    requires forall i :: from <= i < |s| ==> Unescaped(s[i], quote)
    ensures EscapeFrom(s, quote, from) == s[from..]
    decreases |s| - from
  {
    if from < |s| {
      EscapeUnchanged(s, quote, from + 1);
      assert s[from..] == [s[from]] + s[from + 1..];
    }
  }

  /** A string that needs escaping has a backslash in its repr body. */
  lemma {:induction false} EscapeMarks(s: string, quote: char, from: nat, i: nat)
    requires from <= i < |s| && !Unescaped(s[i], quote)
    ensures '\\' in EscapeFrom(s, quote, from)
    decreases i - from
  {
    if i == from {
      assert EscapeFrom(s, quote, from)[0] == '\\';
    } else {
      EscapeMarks(s, quote, from + 1, i);
      var rest := EscapeFrom(s, quote, from + 1);
      var k :| 0 <= k < |rest| && rest[k] == '\\';
      assert EscapeFrom(s, quote, from)[|EscapeChar(s[from], quote)| + k] == '\\';
    }
  }

  /** A key of plain characters, such as every key the code looks up by name, prints in single quotes. */
  lemma KeyErrorOfPlain(key: string)
    requires forall i :: 0 <= i < |key| ==> Unescaped(key[i], '\'') && key[i] != '"'
    ensures KeyError(key) == "'" + key + "'"
  {
    assert '\'' !in key by {
      forall i | 0 <= i < |key| ensures key[i] != '\'' { }
    }
    EscapeUnchanged(key, '\'', 0);
  }

  /**
   * A key with a single quote and no double quote prints between double quotes, and its
   * single quotes stay unescaped.
   */
  lemma KeyErrorOfApostrophe(key: string)
    requires '\'' in key && '"' !in key
    requires forall i :: 0 <= i < |key| ==> key[i] == '\'' || Unescaped(key[i], '"')
    ensures KeyError(key) == "\"" + key + "\""
  {
    forall i | 0 <= i < |key| ensures Unescaped(key[i], '"') {
      if key[i] == '\'' {
        assert Unescaped('\'', '"');
      }
    }
    EscapeUnchanged(key, '"', 0);
  }

  /** `d.get(key, default)` on one optional entry. */
  function OrDefault(o: Option<string>, default: string): string
  {
    match o
    case Some(v) => v
    case None => default
  }

  /**
   * A loop over `xs` that reads each element with `read` and stops at the first KeyError:
   * the values read, in order, or the first error.
   */
  function ReadAll<A, B>(xs: seq<A>, read: A -> Result<B, string>): (r: Result<seq<B>, string>)
    ensures r.Ok? <==> forall i :: 0 <= i < |xs| ==> read(xs[i]).Ok?
    ensures r.Ok? ==> |r.value| == |xs| && forall i :: 0 <= i < |xs| ==> read(xs[i]) == Ok(r.value[i])
    decreases |xs|
  {
    if xs == [] then Ok([])
    else
      match read(xs[0])
      case Err(e) => Err(e)
      case Ok(y) =>
        var rest := ReadAll(xs[1..], read);
        assert forall i :: 1 <= i < |xs| ==> xs[i] == xs[1..][i - 1];
        match rest
        case Err(e) => Err(e)
        case Ok(ys) => Ok([y] + ys)
  }

  /** The error of `ReadAll` is the error of the first element that fails to read. */
  lemma {:induction false} ReadAllError<A, B>(xs: seq<A>, read: A -> Result<B, string>)
    requires ReadAll(xs, read).Err?
    ensures exists i :: 0 <= i < |xs| && read(xs[i]) == Err(ReadAll(xs, read).error) &&
                        forall j :: 0 <= j < i ==> read(xs[j]).Ok?
    decreases |xs|
  {
    if read(xs[0]).Ok? {
      ReadAllError(xs[1..], read);
      var i :| 0 <= i < |xs[1..]| && read(xs[1..][i]) == Err(ReadAll(xs[1..], read).error) &&
               forall j :: 0 <= j < i ==> read(xs[1..][j]).Ok?;
      assert xs[i + 1] == xs[1..][i];
      forall j | 0 <= j < i + 1 ensures read(xs[j]).Ok? {
        if j > 0 { assert xs[j] == xs[1..][j - 1]; }
      }
    }
  }

  /** When the first i elements read and the i-th does not, `ReadAll` fails with the i-th error. */
  lemma {:induction false} ReadAllStops<A, B>(xs: seq<A>, read: A -> Result<B, string>, i: nat)
    requires i < |xs| && read(xs[i]).Err?
    requires forall j :: 0 <= j < i ==> read(xs[j]).Ok?
    ensures ReadAll(xs, read) == Err(read(xs[i]).error)
    decreases i
  {
    if i > 0 {
      assert forall j :: 0 <= j < i - 1 ==> xs[1..][j] == xs[j + 1];
      ReadAllStops(xs[1..], read, i - 1);
    }
  }
}
