/** String helpers with the semantics of the JavaScript built-ins the importer
    uses: `String.prototype.trim`, `split` with a one-character separator,
    `Array.prototype.join`, and the blank-line filter. */
module Text {

  /** JavaScript's WhiteSpace and LineTerminator code points: exactly what
      `trim()` removes and what `parseInt`/`parseFloat` skip at the start. */
  predicate IsWhitespace(c: char) {
    || c == '\t' || c == '\n' || c == '\U{000B}' || c == '\U{000C}' || c == '\r'
    || c == ' ' || c == '\U{00A0}' || c == '\U{1680}'
    || ('\U{2000}' <= c <= '\U{200A}')
    || c == '\U{2028}' || c == '\U{2029}' || c == '\U{202F}' || c == '\U{205F}'
    || c == '\U{3000}' || c == '\U{FEFF}'
  }

  /** `s.trimStart()`: drops the leading whitespace and nothing else. */
  function TrimStart(s: string): (r: string)
    ensures |r| <= |s| && r == s[|s| - |r|..]
    ensures forall i :: 0 <= i < |s| - |r| ==> IsWhitespace(s[i])
    ensures |r| > 0 ==> !IsWhitespace(r[0])
  {
    if |s| > 0 && IsWhitespace(s[0]) then TrimStart(s[1..]) else s
  }

  /** `s.trimEnd()`: drops the trailing whitespace and nothing else. */
  function TrimEnd(s: string): (r: string)
    ensures |r| <= |s| && r == s[..|r|]
    ensures forall i :: |r| <= i < |s| ==> IsWhitespace(s[i])
    ensures |r| > 0 ==> !IsWhitespace(r[|r| - 1])
  {
    if |s| > 0 && IsWhitespace(s[|s| - 1]) then TrimEnd(s[..|s| - 1]) else s
  }

  /** `s.trim()`. */
  function Trim(s: string): string {
    TrimEnd(TrimStart(s))
  }

  /** A string that `trim()` leaves unchanged: it neither starts nor ends with whitespace. */
  predicate IsTrimmed(s: string) {
    |s| == 0 || (!IsWhitespace(s[0]) && !IsWhitespace(s[|s| - 1]))
  }

  lemma TrimIsTrimmed(s: string)
    ensures IsTrimmed(Trim(s))
    ensures |Trim(s)| <= |s|
  {
    var t := TrimStart(s);
    var r := TrimEnd(t);
    if |r| > 0 {
      assert r[0] == t[0];
    }
  }

  lemma TrimOfTrimmed(s: string)
    requires IsTrimmed(s)
    ensures Trim(s) == s
  {
  }

  /** `line.trim() === ''` holds exactly when every character is whitespace. */
  lemma {:induction false} TrimEmptyIffAllWhitespace(s: string)
    ensures Trim(s) == "" <==> forall i :: 0 <= i < |s| ==> IsWhitespace(s[i])
  {
    var t := TrimStart(s);
    if Trim(s) == "" {
      assert |t| == 0;
    }
  }

  /** A line the importer keeps: `line.trim() !== ''`. */
  predicate IsBlank(s: string) {
    Trim(s) == ""
  }

  /** `s.split(sep)` for a one-character separator: the maximal runs between
      separators, always at least one piece (`"".split(",")` is `[""]`). */
  function Split(s: string, sep: char): (r: seq<string>)
    ensures |r| >= 1
    ensures forall k :: 0 <= k < |r| ==> sep !in r[k]
  {
    if |s| == 0 then [""]
    else
      var rest := Split(s[1..], sep);
      if s[0] == sep then [""] + rest
      else [[s[0]] + rest[0]] + rest[1..]
  }

  /** `parts.join(sep)`; the empty array joins to `""`. */
  function Join(parts: seq<string>, sep: char): string {
    if |parts| == 0 then ""
    else if |parts| == 1 then parts[0]
    else parts[0] + [sep] + Join(parts[1..], sep)
  }

  /** Joining the pieces of a split gives back the original string. */
  lemma {:induction false} JoinSplit(s: string, sep: char)
    ensures Join(Split(s, sep), sep) == s
  {
    if |s| > 0 {
      var rest := Split(s[1..], sep);
      JoinSplit(s[1..], sep);
      if s[0] == sep {
        assert Split(s, sep) == [""] + rest;
        assert Join([""] + rest, sep) == "" + [sep] + Join(rest, sep);
        assert s == [s[0]] + s[1..];
      } else {
        var p := Split(s, sep);
        assert p == [[s[0]] + rest[0]] + rest[1..];
        if |rest| == 1 {
          assert Join(p, sep) == [s[0]] + rest[0];
        } else {
          assert p[1..] == rest[1..];
          assert Join(p, sep) == [s[0]] + rest[0] + [sep] + Join(rest[1..], sep);
          assert Join(rest, sep) == rest[0] + [sep] + Join(rest[1..], sep);
        }
        assert s == [s[0]] + s[1..];
      }
    }
  }

  lemma SplitOfPrefixed(c: char, s: string, sep: char)
    requires c != sep
    ensures Split([c] + s, sep) == [[c] + Split(s, sep)[0]] + Split(s, sep)[1..]
  {
    assert ([c] + s)[1..] == s;
  }

  /** Splitting a string that has no separator yields the string itself. */
  lemma {:induction false} SplitNoSeparator(s: string, sep: char)
    requires sep !in s
    ensures Split(s, sep) == [s]
  {
    if |s| > 0 {
      SplitNoSeparator(s[1..], sep);
      assert s == [s[0]] + s[1..];
    }
  }

  /** Split of `a + [sep] + b` when `a` has no separator. */
  lemma {:induction false} SplitAtSeparator(a: string, b: string, sep: char)
    requires sep !in a
    ensures Split(a + [sep] + b, sep) == [a] + Split(b, sep)
  {
    if |a| == 0 {
      assert ([sep] + b)[1..] == b;
      assert a + [sep] + b == [sep] + b;
    } else {
      SplitAtSeparator(a[1..], b, sep);
      assert (a + [sep] + b)[1..] == a[1..] + [sep] + b;
      assert a == [a[0]] + a[1..];
    }
  }

  /** Splitting a join of separator-free parts gives the parts back. */
  lemma {:induction false} SplitJoin(parts: seq<string>, sep: char)
    requires |parts| >= 1
    requires forall k :: 0 <= k < |parts| ==> sep !in parts[k]
    ensures Split(Join(parts, sep), sep) == parts
  {
    if |parts| == 1 {
      SplitNoSeparator(parts[0], sep);
    } else {
      SplitJoin(parts[1..], sep);
      SplitAtSeparator(parts[0], Join(parts[1..], sep), sep);
      assert parts == [parts[0]] + parts[1..];
    }
  }

  /** The lines the importers work on: `text.split('\n')` with every line whose
      trimmed form is empty removed, order kept. */
  function NonBlankLines(text: string): seq<string> {
    DropBlank(Split(text, '\n'))
  }

  /** `lines.filter((line) => line.trim() !== '')`. */
  function DropBlank(lines: seq<string>): (r: seq<string>)
    ensures |r| <= |lines|
    ensures forall k :: 0 <= k < |r| ==> !IsBlank(r[k]) && r[k] in lines
  {
    if |lines| == 0 then []
    else if IsBlank(lines[0]) then DropBlank(lines[1..])
    else [lines[0]] + DropBlank(lines[1..])
  }

  /** The filter works line by line: what it keeps of a concatenation is what
      it keeps of each part, so every non-blank line survives, in order. */
  lemma {:induction false} DropBlankAppend(xs: seq<string>, ys: seq<string>)
    ensures DropBlank(xs + ys) == DropBlank(xs) + DropBlank(ys)
  {
    if |xs| > 0 {
      var x, rest := xs[0], xs[1..];
      assert xs + ys == [x] + (rest + ys) && xs == [x] + rest;
      DropBlankCons(x, rest + ys);
      DropBlankCons(x, rest);
      DropBlankAppend(rest, ys);
    } else {
      assert xs + ys == ys;
    }
  }

  /** The filter's first step: the first line when it is not blank, then the rest. */
  lemma DropBlankCons(x: string, rest: seq<string>)
    ensures DropBlank([x] + rest) == (if IsBlank(x) then [] else [x]) + DropBlank(rest)
  {
    assert ([x] + rest)[0] == x && ([x] + rest)[1..] == rest;
  }

  /** The filter keeps a list of non-blank lines intact. */
  lemma {:induction false} DropBlankKeepsNonBlank(lines: seq<string>)
    requires forall k :: 0 <= k < |lines| ==> !IsBlank(lines[k])
    ensures DropBlank(lines) == lines
  {
    if |lines| > 0 {
      DropBlankKeepsNonBlank(lines[1..]);
    }
  }

  /** The filter removes a list made only of blank lines entirely. */
  lemma {:induction false} DropBlankOfBlank(lines: seq<string>)
    requires forall k :: 0 <= k < |lines| ==> IsBlank(lines[k])
    ensures DropBlank(lines) == []
  {
    if |lines| > 0 {
      DropBlankOfBlank(lines[1..]);
    }
  }

  /** The comma-separated list fields (`images`, `amenities`):
      `field.split(',').map((x) => x.trim()).filter((x) => x.length > 0)`. */
  function CommaList(field: string): (r: seq<string>)
    ensures forall k :: 0 <= k < |r| ==> |r[k]| > 0 && IsTrimmed(r[k]) && ',' !in r[k]
  {
    NonEmptyTrimmed(Split(field, ','))
  }

  function NonEmptyTrimmed(tokens: seq<string>): (r: seq<string>)
    requires forall k :: 0 <= k < |tokens| ==> ',' !in tokens[k]
    ensures |r| <= |tokens|
    ensures forall k :: 0 <= k < |r| ==> |r[k]| > 0 && IsTrimmed(r[k]) && ',' !in r[k]
  {
    if |tokens| == 0 then []
    else
      var t := Trim(tokens[0]);
      var rest := NonEmptyTrimmed(tokens[1..]);
      TrimmedToken(tokens[0], ',');
      if |t| > 0 then [t] + rest else rest
  }

  /** Trimming and filtering one more token appends its trimmed form exactly
      when that is non-empty: the tokens are kept trimmed, in order. */
  lemma {:induction false} NonEmptyTrimmedSnoc(tokens: seq<string>, t: string)
    requires forall k :: 0 <= k < |tokens| ==> ',' !in tokens[k]
    requires ',' !in t
    ensures NonEmptyTrimmed(tokens + [t]) == NonEmptyTrimmed(tokens) + (if Trim(t) != "" then [Trim(t)] else [])
  {
    if |tokens| == 0 {
      assert tokens + [t] == [t];
      assert ([t])[1..] == [];
    } else {
      assert (tokens + [t])[0] == tokens[0];
      assert (tokens + [t])[1..] == tokens[1..] + [t];
      NonEmptyTrimmedSnoc(tokens[1..], t);
    }
  }

  /** A trimmed token is trimmed and lacks every character the token lacks. */
  lemma TrimmedToken(s: string, c: char)
    requires c !in s
    ensures IsTrimmed(Trim(s)) && c !in Trim(s)
  {
    TrimIsTrimmed(s);
    TrimSubstring(s);
  }

  /** The trimmed string is a piece of the original, so it contains no character the original lacks. */
  lemma TrimSubstring(s: string)
    ensures forall c :: c in Trim(s) ==> c in s
  {
    var t := TrimStart(s);
    forall c | c in Trim(s) ensures c in s {
      var i :| 0 <= i < |Trim(s)| && Trim(s)[i] == c;
      assert t[i] == c;
      assert s[|s| - |t| + i] == c;
    }
  }

  /** Round trip with the generator's `join(',')`: joining non-empty, trimmed,
      comma-free tokens and reading them back as a list field gives the tokens. */
  lemma CommaListOfJoin(tokens: seq<string>)
    requires forall k :: 0 <= k < |tokens| ==> |tokens[k]| > 0 && IsTrimmed(tokens[k]) && ',' !in tokens[k]
    ensures CommaList(Join(tokens, ',')) == tokens
  {
    if |tokens| == 0 {
      assert Split("", ',') == [""];
      assert Trim("") == "";
    } else {
      SplitJoin(tokens, ',');
      NonEmptyTrimmedKeeps(tokens);
    }
  }

  /** A list field written as comma-free cells, padded or empty ones included,
      reads as those cells trimmed, with the empty ones dropped. */
  lemma CommaListOfCells(cells: seq<string>)
    requires |cells| >= 1
    requires forall k :: 0 <= k < |cells| ==> ',' !in cells[k]
    ensures CommaList(Join(cells, ',')) == NonEmptyTrimmed(cells)
  {
    SplitJoin(cells, ',');
  }

  /** The filter keeps a string exactly when it is the non-empty trimmed form of some token. */
  lemma NonEmptyTrimmedMembers(tokens: seq<string>)
    requires forall k :: 0 <= k < |tokens| ==> ',' !in tokens[k]
    ensures forall t :: t in NonEmptyTrimmed(tokens) <==> t != "" && exists k :: 0 <= k < |tokens| && Trim(tokens[k]) == t
  {
    forall t
      ensures t in NonEmptyTrimmed(tokens) <==> t != "" && exists k :: 0 <= k < |tokens| && Trim(tokens[k]) == t
    {
      NonEmptyTrimmedHas(tokens, t);
    }
  }

  /** `NonEmptyTrimmedMembers` for one string `t`, by induction on the tokens. */
  lemma {:induction false} NonEmptyTrimmedHas(tokens: seq<string>, t: string)
    requires forall k :: 0 <= k < |tokens| ==> ',' !in tokens[k]
    ensures t in NonEmptyTrimmed(tokens) <==> t != "" && exists k :: 0 <= k < |tokens| && Trim(tokens[k]) == t
  {
    if |tokens| > 0 {
      NonEmptyTrimmedHas(tokens[1..], t);
      NonEmptyTrimmedHead(tokens);
      SomeTrimOfTail(tokens, t);
    }
  }

  /** The filter's first step: the first token, trimmed, when that is non-empty, then the rest. */
  lemma NonEmptyTrimmedHead(tokens: seq<string>)
    requires |tokens| > 0
    requires forall k :: 0 <= k < |tokens| ==> ',' !in tokens[k]
    ensures NonEmptyTrimmed(tokens) == (if Trim(tokens[0]) != "" then [Trim(tokens[0])] else []) + NonEmptyTrimmed(tokens[1..])
  {
  }

  /** Some token trims to `t` exactly when the first one does or one of the rest does. */
  lemma SomeTrimOfTail(tokens: seq<string>, t: string)
    requires |tokens| > 0
    ensures (exists k :: 0 <= k < |tokens| && Trim(tokens[k]) == t)
      <==> Trim(tokens[0]) == t || exists k :: 0 <= k < |tokens| - 1 && Trim(tokens[1..][k]) == t
  {
    var rest := tokens[1..];
    if exists k :: 0 <= k < |rest| && Trim(rest[k]) == t {
      var k :| 0 <= k < |rest| && Trim(rest[k]) == t;
      assert Trim(tokens[k + 1]) == t;
    }
    if exists k :: 0 <= k < |tokens| && Trim(tokens[k]) == t {
      var k :| 0 <= k < |tokens| && Trim(tokens[k]) == t;
      if k > 0 {
        assert Trim(rest[k - 1]) == t;
      }
    }
  }

  lemma {:induction false} NonEmptyTrimmedKeeps(tokens: seq<string>)
    requires forall k :: 0 <= k < |tokens| ==> |tokens[k]| > 0 && IsTrimmed(tokens[k]) && ',' !in tokens[k]
    ensures NonEmptyTrimmed(tokens) == tokens
  {
    if |tokens| > 0 {
      var t, rest := tokens[0], tokens[1..];
      assert tokens == [t] + rest;
      NonEmptyTrimmedCons(t, rest);
      NonEmptyTrimmedKeeps(rest);
    }
  }

  /** A token that is already non-empty and trimmed survives the filter unchanged. */
  lemma NonEmptyTrimmedCons(t: string, rest: seq<string>)
    requires |t| > 0 && IsTrimmed(t) && ',' !in t
    requires forall k :: 0 <= k < |rest| ==> ',' !in rest[k]
    ensures NonEmptyTrimmed([t] + rest) == [t] + NonEmptyTrimmed(rest)
  {
    TrimOfTrimmed(t);
    assert ([t] + rest)[1..] == rest;
  }

  /** `s.startsWith(prefix)`. */
  predicate StartsWith(s: string, prefix: string) {
    |prefix| <= |s| && s[..|prefix|] == prefix
  }

  /** `xs.slice(0, n)`: the first `n` elements, or all of them when there are fewer. */
  function Take<T>(xs: seq<T>, n: nat): (r: seq<T>)
    ensures |r| == if |xs| < n then |xs| else n
    ensures r == xs[..|r|]
  {
    if |xs| <= n then xs else xs[..n]
  }
}
