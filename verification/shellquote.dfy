/** `sh_quote` (scripts/gh-import-issues.py), which renders the arguments of
    the `gh` commands a dry run would execute, and a reader for the shell
    words it is meant to produce.

    The replacement literal of the source, `"'\''"`, is a Python string in
    which `\'` is an escaped quote: it holds three single quotes, not the
    four characters `'\''` of the usual POSIX idiom. `ShQuote` models the
    code as written; `ShQuoteIntended` uses the four-character idiom. */
module ShellQuote {
  import opened Wrappers
  import opened Text

  /** The punctuation `sh_quote` leaves unquoted. */
  const SafePunctuation: string := "/._-=:,[]{}"

  /** A string `sh_quote` returns unchanged: non-empty, made only of
      (ASCII) alphanumerics and the safe punctuation. */
  predicate IsSafeWord(s: string) {
    s != [] && forall i :: 0 <= i < |s| ==> IsAlnum(s[i]) || s[i] in SafePunctuation
  }

  /** `s.replace(c, rep)` for a one-character pattern. */
  function ReplaceChar(s: string, c: char, rep: string): (r: string)
    ensures c !in rep ==> c !in r
    ensures (forall i :: 0 <= i < |s| ==> s[i] != c) ==> r == s
  {
    if s == [] then []
    else (if s[0] == c then rep else [s[0]]) + ReplaceChar(s[1..], c, rep)
  }

  /** The literal `"'\''"` as Python evaluates it: three quotes. */
  const AsWrittenEscape: string := "'''"

  /** The POSIX idiom the literal was meant to spell: close the quote, an
      escaped quote, reopen the quote. */
  const IntendedEscape: string := "'\\''"

  /** `sh_quote` as written. */
  function ShQuote(s: string): (r: string)
    ensures s == [] ==> r == "''"
    ensures IsSafeWord(s) ==> r == s
    ensures s != [] && !IsSafeWord(s) ==> r == "'" + ReplaceChar(s, '\'', AsWrittenEscape) + "'"
  {
    if s == [] then "''"
    else if forall i :: 0 <= i < |s| ==> IsAlnum(s[i]) || s[i] in SafePunctuation then s
    else "'" + ReplaceChar(s, '\'', AsWrittenEscape) + "'"
  }

  /** `sh_quote` with the replacement it was evidently meant to have. */
  function ShQuoteIntended(s: string): (r: string)
    ensures s == [] ==> r == "''"
    ensures IsSafeWord(s) ==> r == s
    ensures s != [] && !IsSafeWord(s) ==> r == "'" + ReplaceChar(s, '\'', IntendedEscape) + "'"
  {
    if s == [] then "''"
    else if forall i :: 0 <= i < |s| ==> IsAlnum(s[i]) || s[i] in SafePunctuation then s
    else "'" + ReplaceChar(s, '\'', IntendedEscape) + "'"
  }

  function Prepend(p: string, o: Option<string>): Option<string> {
    match o
    case Some(t) => Some(p + t)
    case None => None
  }

  /** The value of one POSIX shell word: single-quoted runs are literal, a
      backslash outside quotes makes the next character literal, any other
      character stands for itself; None for an unterminated quote or a
      trailing backslash. `quoted` says whether reading starts inside a
      single-quoted run. (Field splitting and expansions are not modelled:
      the words read here are taken as one argument.) */
  function ReadWord(t: string, quoted: bool): Option<string>
    decreases |t|
  {
    if t == [] then (if quoted then None else Some([]))
    else if t[0] == '\'' then ReadWord(t[1..], !quoted)
    else if !quoted && t[0] == '\\' then
      if |t| < 2 then None else Prepend([t[1]], ReadWord(t[2..], quoted))
    else Prepend([t[0]], ReadWord(t[1..], quoted))
  }

  lemma PrependPrepend(a: string, b: string, o: Option<string>)
    ensures Prepend(a, Prepend(b, o)) == Prepend(a + b, o)
  {
    if o.Some? {
      assert a + (b + o.value) == (a + b) + o.value;
    }
  }

  lemma PrependNothing(o: Option<string>)
    ensures Prepend([], o) == o
  {
    if o.Some? {
      assert [] + o.value == o.value;
    }
  }

  /** One step of `ReplaceChar`, with what follows it. */
  lemma ReplaceCharStep(s: string, c: char, rep: string, rest: string)
    requires s != []
    ensures ReplaceChar(s, c, rep) + rest
         == (if s[0] == c then rep else [s[0]]) + (ReplaceChar(s[1..], c, rep) + rest)
  {
  }

  /** A character other than a quote stands for itself, except for a
      backslash outside quotes. */
  lemma ReadPlain(c: char, tail: string, quoted: bool)
    requires c != '\'' && (quoted || c != '\\')
    ensures ReadWord([c] + tail, quoted) == Prepend([c], ReadWord(tail, quoted))
  {
    assert ([c] + tail)[1..] == tail;
  }

  /** A quote switches between quoted and unquoted and stands for nothing. */
  lemma ReadQuote(tail: string, quoted: bool)
    ensures ReadWord("'" + tail, quoted) == ReadWord(tail, !quoted)
  {
    assert ("'" + tail)[1..] == tail;
  }

  /** Inside quotes, the intended escape reads as one quote and leaves the
      reader inside quotes again. */
  lemma ReadIntendedEscape(tail: string)
    ensures ReadWord(IntendedEscape + tail, true) == Prepend("'", ReadWord(tail, true))
  {
    var u := "\\'" + ("'" + tail);
    assert IntendedEscape + tail == "'" + u;
    ReadQuote(u, true);
    assert u[0] == '\\' && u[1] == '\'' && u[2..] == "'" + tail;
    ReadQuote(tail, false);
  }

  /** The three quotes of the escape as written switch the reader three
      times, that is, once. */
  lemma ReadThreeQuotes(tail: string, quoted: bool)
    ensures ReadWord(AsWrittenEscape + tail, quoted) == ReadWord(tail, !quoted)
  {
    assert AsWrittenEscape + tail == "'" + ("'" + ("'" + tail));
    ReadQuote("'" + ("'" + tail), quoted);
    ReadQuote("'" + tail, !quoted);
    ReadQuote(tail, quoted);
  }

  /** Inside a quoted run, the intended escape of each quote reads back as
      that quote and leaves the reader inside the run again. */
  lemma {:induction false} IntendedBodyReads(s: string, rest: string)
    ensures ReadWord(ReplaceChar(s, '\'', IntendedEscape) + rest, true)
         == Prepend(s, ReadWord(rest, true))
  {
    if s == [] {
      assert ReplaceChar(s, '\'', IntendedEscape) + rest == rest;
      PrependNothing(ReadWord(rest, true));
    } else {
      var tail := ReplaceChar(s[1..], '\'', IntendedEscape) + rest;
      ReplaceCharStep(s, '\'', IntendedEscape, rest);
      IntendedBodyReads(s[1..], rest);
      if s[0] == '\'' {
        ReadIntendedEscape(tail);
      } else {
        ReadPlain(s[0], tail, true);
      }
      PrependPrepend([s[0]], s[1..], ReadWord(rest, true));
      assert [s[0]] + s[1..] == s;
    }
  }

  /** A safe word reads back as itself. */
  lemma {:induction false} SafeWordReads(s: string)
    requires forall i :: 0 <= i < |s| ==> IsAlnum(s[i]) || s[i] in SafePunctuation
    ensures ReadWord(s, false) == Some(s)
  {
    if s == [] {
    } else {
      assert s[0] != '\'' && s[0] != '\\';
      SafeWordReads(s[1..]);
      ReadPlain(s[0], s[1..], false);
      assert [s[0]] + s[1..] == s;
    }
  }

  /** A single-quoted word: the reader starts inside the quotes. */
  lemma ReadQuotedWord(body: string)
    ensures ReadWord("'" + body + "'", false) == ReadWord(body + "'", true)
  {
    assert "'" + body + "'" == "'" + (body + "'");
    ReadQuote(body + "'", false);
  }

  /** The corrected quoting is sound: the shell reads every quoted string
      back as exactly the original argument. */
  lemma IntendedRoundTrip(s: string)
    ensures ReadWord(ShQuoteIntended(s), false) == Some(s)
  {
    if s == [] {
      assert ShQuoteIntended(s) == "'" + "'";
      ReadQuote("'", false);
      ReadQuote([], true);
    } else if IsSafeWord(s) {
      SafeWordReads(s);
    } else {
      var body := ReplaceChar(s, '\'', IntendedEscape);
      ReadQuotedWord(body);
      IntendedBodyReads(s, "'");
      ReadQuote([], true);
      assert s + [] == s;
    }
  }

  /** `s` without its single quotes. */
  function DropQuotes(s: string): (r: string)
    ensures |r| <= |s|
    ensures '\'' in s ==> |r| < |s|
  {
    if s == [] then []
    else (if s[0] == '\'' then [] else [s[0]]) + DropQuotes(s[1..])
  }

  function QuoteCount(s: string): nat {
    if s == [] then 0 else (if s[0] == '\'' then 1 else 0) + QuoteCount(s[1..])
  }

  /** Whether the reader is inside quotes after the escaped form of `s`, under
      the escape as written: each quote of `s` switches it once. */
  function ModeAfter(s: string, quoted: bool): bool {
    if QuoteCount(s) % 2 == 1 then !quoted else quoted
  }

  /** Under the escape as written, every quote of the argument switches the
      reader between quoted and unquoted and is itself lost; other
      characters (backslashes aside) are kept. */
  lemma {:induction false} AsWrittenBodyReads(s: string, rest: string, quoted: bool)
    requires '\\' !in s
    ensures ReadWord(ReplaceChar(s, '\'', AsWrittenEscape) + rest, quoted)
         == Prepend(DropQuotes(s), ReadWord(rest, ModeAfter(s, quoted)))
  {
    if s == [] {
      assert ReplaceChar(s, '\'', AsWrittenEscape) + rest == rest;
      PrependNothing(ReadWord(rest, quoted));
    } else {
      var tail := ReplaceChar(s[1..], '\'', AsWrittenEscape) + rest;
      ReplaceCharStep(s, '\'', AsWrittenEscape, rest);
      assert s[0] in s;
      assert '\\' !in s[1..];
      if s[0] == '\'' {
        AsWrittenBodyReads(s[1..], rest, !quoted);
        ReadThreeQuotes(tail, quoted);
        assert ModeAfter(s, quoted) == ModeAfter(s[1..], !quoted);
        assert DropQuotes(s) == DropQuotes(s[1..]);
      } else {
        AsWrittenBodyReads(s[1..], rest, quoted);
        ReadPlain(s[0], tail, quoted);
        assert ModeAfter(s, quoted) == ModeAfter(s[1..], quoted);
        PrependPrepend([s[0]], DropQuotes(s[1..]), ReadWord(rest, ModeAfter(s, quoted)));
      }
    }
  }

  /** The source's quoting is unsound: for an argument that contains a
      single quote (and no backslash) the shell either rejects the word as
      an unterminated quote, or reads it with its quotes removed — never as
      the original argument. */
  lemma AsWrittenLosesQuotes(s: string)
    requires '\'' in s && '\\' !in s
    ensures ReadWord(ShQuote(s), false) ==
              if QuoteCount(s) % 2 == 1 then None else Some(DropQuotes(s))
    ensures ReadWord(ShQuote(s), false) != Some(s)
  {
    var i :| 0 <= i < |s| && s[i] == '\'';
    assert !IsAlnum(s[i]) && s[i] !in SafePunctuation;
    var body := ReplaceChar(s, '\'', AsWrittenEscape);
    assert ShQuote(s) == "'" + body + "'";
    ReadQuotedWord(body);
    AsWrittenBodyReads(s, "'", true);
    ReadQuote([], false);
    ReadQuote([], true);
    assert DropQuotes(s) + [] == DropQuotes(s);
  }

  /** How the source prints `it's`: the quote becomes three quotes. */
  lemma ShQuoteIts()
    ensures ShQuote("it's") == "'it" + AsWrittenEscape + "s'"
  {
    var s := "it's";
    assert s[2] == '\'';
    assert !IsSafeWord(s);
    var r := ReplaceChar(s, '\'', AsWrittenEscape);
    ReplaceCharStep(s, '\'', AsWrittenEscape, []);
    ReplaceCharStep(s[1..], '\'', AsWrittenEscape, []);
    ReplaceCharStep(s[2..], '\'', AsWrittenEscape, []);
    ReplaceCharStep(s[3..], '\'', AsWrittenEscape, []);
    assert s[1..][1..] == s[2..] && s[2..][1..] == s[3..] && s[3..][1..] == [];
    assert r + [] == r;
  }

  /** A concrete instance: `it's` is printed as `'it'''s'`, which a POSIX
      shell rejects as an unterminated quote. */
  lemma AsWrittenExample()
    ensures ReadWord(ShQuote("it's"), false) == None
  {
    var s := "it's";
    assert s[2] == '\'' && s[2] in s;
    assert QuoteCount(s) == 1 by {
      assert s[1..][1..] == s[2..] && s[2..][1..] == s[3..] && s[3..][1..] == [];
    }
    AsWrittenLosesQuotes(s);
  }
}
