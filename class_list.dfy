/**
 * The class-attribute idiom shared by the components:
 * `[entries...].filter(Boolean).join(" ")`.
 *
 * Every entry is a string or `false`; both `false` and `""` are falsy and
 * dropped by `filter(Boolean)`, so `false` is written `""` here.
 * `Words` is how a browser reads the resulting attribute back into tokens
 * (split on ASCII whitespace, empty pieces dropped).
 */
module ClassList {

  /** ASCII whitespace: tab, line feed, form feed, carriage return, space. */
  predicate IsAsciiWhitespace(c: char) {
    c as int == 9 || c as int == 10 || c as int == 12 || c as int == 13 || c == ' '
  }

  predicate HasNoWhitespace(s: string) {
    forall i :: 0 <= i < |s| ==> !IsAsciiWhitespace(s[i])
  }

  /** No leading or trailing space and no two spaces in a row. */
  predicate SingleSpaced(s: string) {
    && (|s| > 0 ==> s[0] != ' ' && s[|s| - 1] != ' ')
    && forall i :: 0 < i < |s| ==> !(s[i - 1] == ' ' && s[i] == ' ')
  }

  /** `entries.filter(Boolean)`: keeps the non-empty entries, in order. */
  function Truthy(entries: seq<string>): (r: seq<string>)
    ensures |r| <= |entries|
    ensures forall x :: x in r <==> x in entries && x != ""
  {
    if entries == [] then []
    else if entries[0] == "" then Truthy(entries[1..])
    else [entries[0]] + Truthy(entries[1..])
  }

  /** `tokens.join(" ")`. */
  function JoinSpace(tokens: seq<string>): string
  {
    if tokens == [] then ""
    else if |tokens| == 1 then tokens[0]
    else tokens[0] + " " + JoinSpace(tokens[1..])
  }

  /** `entries.filter(Boolean).join(" ")`. */
  function Compose(entries: seq<string>): string
  {
    JoinSpace(Truthy(entries))
  }

  /** Length of the leading run of non-whitespace characters. */
  function WordLength(s: string): (n: nat)
    ensures n <= |s|
    ensures s != "" && !IsAsciiWhitespace(s[0]) ==> n > 0
  {
    if s == "" || IsAsciiWhitespace(s[0]) then 0 else 1 + WordLength(s[1..])
  }

  /** The tokens of a class attribute: maximal runs of non-whitespace. */
  function Words(s: string): seq<string>
    decreases |s|
  {
    if s == "" then []
    else if IsAsciiWhitespace(s[0]) then Words(s[1..])
    else [s[..WordLength(s)]] + Words(s[WordLength(s)..])
  }

  /** Filtering distributes over concatenation of the entry list. */
  lemma {:induction false} TruthyAppend(a: seq<string>, b: seq<string>)
    ensures Truthy(a + b) == Truthy(a) + Truthy(b)
  {
    if a == [] {
      assert a + b == b;
    } else {
      assert (a + b)[1..] == a[1..] + b;
      TruthyAppend(a[1..], b);
    }
  }

  lemma TruthySingle(x: string)
    ensures Truthy([x]) == if x == "" then [] else [x]
  {
    assert [x][1..] == [];
  }

  /** An empty trailing entry (an unset `className`) adds no token. */
  lemma EmptyEntryAddsNothing(entries: seq<string>)
    ensures Compose(entries + [""]) == Compose(entries)
  {
    TruthyAppend(entries, [""]);
    assert Truthy([""]) == [];
    assert Truthy(entries) + [] == Truthy(entries);
  }

  lemma {:induction false} WordLengthOfWord(t: string, rest: string)
    requires HasNoWhitespace(t)
    requires rest == "" || IsAsciiWhitespace(rest[0])
    ensures WordLength(t + rest) == |t|
  {
    if t == "" {
      assert t + rest == rest;
    } else {
      assert (t + rest)[0] == t[0];
      assert (t + rest)[1..] == t[1..] + rest;
      WordLengthOfWord(t[1..], rest);
    }
  }

  /**
   * Reading the joined attribute back gives exactly the tokens that were
   * joined, provided each is a non-empty single class name.
   */
  lemma {:induction false} WordsOfJoin(tokens: seq<string>)
    requires forall i :: 0 <= i < |tokens| ==> tokens[i] != "" && HasNoWhitespace(tokens[i])
    ensures Words(JoinSpace(tokens)) == tokens
  {
    if tokens == [] {
    } else {
      var t := tokens[0];
      if |tokens| == 1 {
        WordLengthOfWord(t, "");
        assert t + "" == t;
        assert t[..|t|] == t && t[|t|..] == "";
      } else {
        var tail := JoinSpace(tokens[1..]);
        var s := t + " " + tail;
        assert s == t + (" " + tail);
        WordLengthOfWord(t, " " + tail);
        assert s[0] == t[0];
        assert s[..|t|] == t;
        assert s[|t|..] == " " + tail;
        assert (" " + tail)[1..] == tail;
        WordsOfJoin(tokens[1..]);
      }
    }
  }

  /**
   * Joining non-empty, single-spaced entries with one space gives a
   * single-spaced string: no empty token appears in it.
   */
  lemma {:induction false} JoinSingleSpaced(tokens: seq<string>)
    requires forall i :: 0 <= i < |tokens| ==> tokens[i] != "" && SingleSpaced(tokens[i])
    ensures SingleSpaced(JoinSpace(tokens))
    ensures tokens != [] ==> JoinSpace(tokens) != ""
  {
    if |tokens| > 1 {
      var t := tokens[0];
      var tail := JoinSpace(tokens[1..]);
      JoinSingleSpaced(tokens[1..]);
      var s := t + " " + tail;
      assert SingleSpaced(t) && t != "" && tail != "";
      forall i | 0 < i < |s|
        ensures !(s[i - 1] == ' ' && s[i] == ' ')
      {
        if i < |t| {
          assert s[i - 1] == t[i - 1] && s[i] == t[i];
        } else if i == |t| {
          assert s[i - 1] == t[|t| - 1];
        } else if i == |t| + 1 {
          assert s[i] == tail[0];
        } else {
          var j := i - |t| - 1;
          assert 0 < j < |tail|;
          assert s[i - 1] == tail[j - 1] && s[i] == tail[j];
        }
      }
      assert s[0] == t[0] && s[|s| - 1] == tail[|tail| - 1];
    }
  }

  /**
   * `filter(Boolean).join(" ")` reads back as exactly the non-empty entries,
   * when each entry is a single class name or empty.
   */
  lemma ComposeWords(entries: seq<string>)
    requires forall e :: e in entries ==> HasNoWhitespace(e)
    ensures Words(Compose(entries)) == Truthy(entries)
  {
    var ts := Truthy(entries);
    assert forall i :: 0 <= i < |ts| ==> ts[i] in ts;
    WordsOfJoin(ts);
  }

  /** The composed string never has an empty token, a stray or a doubled space. */
  lemma ComposeSingleSpaced(entries: seq<string>)
    requires forall e :: e in entries ==> SingleSpaced(e)
    ensures SingleSpaced(Compose(entries))
  {
    var ts := Truthy(entries);
    assert forall i :: 0 <= i < |ts| ==> ts[i] in ts;
    JoinSingleSpaced(ts);
  }
}
