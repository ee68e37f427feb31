/**
 Extraction of the sentiment dictionary from a model's raw text answer.

 The answer is cut from its first `{` to its last `}`, both included, and the
 cut is handed to a JSON parser; when either brace is missing, or the parser
 fails, the result is the empty dictionary. The parser is a parameter of the
 model: nothing is assumed of it except, where stated, that it rejects the
 empty text, as every JSON parser does.
 */
module SentimentParse {
  import opened Wrappers

  /** A JSON object: string keys, values of whatever type the parser produces. */
  type Dict<V> = map<string, V>

  /** A JSON parser: the decoded object, or `None` on a decoding error. */
  type Parser<V> = string -> Option<Dict<V>>

  /** Index of the first occurrence of `c` in `s` at or after `from`, or -1
      when there is none. */
  function FindFrom(s: string, c: char, from: nat): (r: int)
    requires from <= |s|
    ensures r == -1 || from <= r < |s|
    ensures r == -1 ==> forall i :: from <= i < |s| ==> s[i] != c
    ensures r != -1 ==> s[r] == c && forall i :: from <= i < r ==> s[i] != c
    decreases |s| - from
  {
    if from == |s| then -1
    else if s[from] == c then from
    else FindFrom(s, c, from + 1)
  }

  /** Index of the last occurrence of `c` in `s` before `upto`, or -1 when
      there is none. */
  function FindBefore(s: string, c: char, upto: nat): (r: int)
    requires upto <= |s|
    ensures -1 <= r < upto
    ensures r == -1 ==> forall i :: 0 <= i < upto ==> s[i] != c
    ensures r != -1 ==> s[r] == c && forall i :: r < i < upto ==> s[i] != c
    decreases upto
  {
    if upto == 0 then -1
    else if s[upto - 1] == c then upto - 1
    else FindBefore(s, c, upto - 1)
  }

  /** `s.find(c)`: the index of the first `c`, or -1 when `c` does not occur. */
  function Find(s: string, c: char): (r: int)
    ensures -1 <= r < |s|
    ensures r == -1 <==> c !in s
    ensures r != -1 ==> s[r] == c && forall i :: 0 <= i < r ==> s[i] != c
  {
    FindFrom(s, c, 0)
  }

  /** `s.rfind(c)`: the index of the last `c`, or -1 when `c` does not occur. */
  function RFind(s: string, c: char): (r: int)
    ensures -1 <= r < |s|
    ensures r == -1 <==> c !in s
    ensures r != -1 ==> s[r] == c && forall i :: r < i < |s| ==> s[i] != c
  {
    FindBefore(s, c, |s|)
  }

  /** The slice `s[start:stop]` with non-negative bounds: both bounds are
      clamped to the length, and a stop at or before the start gives the empty
      text. */
  function Slice(s: string, start: nat, stop: nat): (r: string)
    ensures start < stop <= |s| ==> r == s[start..stop]
    ensures stop <= start ==> r == []
  {
    var lo := if start < |s| then start else |s|;
    var hi := if stop < |s| then stop else |s|;
    if lo < hi then s[lo..hi] else []
  }

  /** The text handed to the parser, or `None` when the answer lacks a `{` or
      a `}`. */
  function Candidate(response: string): (r: Option<string>)
    ensures r.None? <==> '{' !in response || '}' !in response
  {
    var start := Find(response, '{');
    var end := RFind(response, '}');
    if start != -1 && end != -1 then Some(Slice(response, start, end + 1)) else None
  }

  /** The parsed dictionary, or the empty one when there is no candidate or it
      does not parse. */
  function CleanAndParse<V>(response: string, parse: Parser<V>): (r: Dict<V>)
    ensures '{' !in response || '}' !in response ==> r == map[]
  {
    match Candidate(response)
    case None => map[]
    case Some(text) => parse(text).GetOr(map[])
  }

  /** A text is its part before the `{` at `i`, the braced span from `i` to the
      `}` at `j`, and its part after `j`; with no `{` before `i` and no `}`
      after `j`, those outer parts hold neither brace of the span. */
  lemma BracedSplit(s: string, i: nat, j: nat)
    requires i < j < |s| && s[i] == '{' && s[j] == '}'
    requires forall k :: 0 <= k < i ==> s[k] != '{'
    requires forall k :: j < k < |s| ==> s[k] != '}'
    ensures s[i..j + 1][0] == '{' && s[i..j + 1][|s[i..j + 1]| - 1] == '}'
    ensures '{' !in s[..i] && '}' !in s[j + 1..]
    ensures s == s[..i] + s[i..j + 1] + s[j + 1..]
  {
    assert |s[i..j + 1]| - 1 == j - i;
  }

  /** The candidate runs from the first `{` to the last `}`, both included, and
      is empty when that `}` comes before that `{`. */
  lemma CandidateSpan(response: string)
    requires '{' in response && '}' in response
    ensures var i := Find(response, '{');
      var j := RFind(response, '}');
      Candidate(response) == Some(if i < j then response[i..j + 1] else [])
  {
  }

  /** When the first `{` precedes the last `}`, the candidate starts with `{`
      and ends with `}`. */
  lemma CandidateIsBraced(response: string)
    requires '{' in response && '}' in response
    requires Find(response, '{') < RFind(response, '}')
    ensures Candidate(response).value[0] == '{'
    ensures Candidate(response).value[|Candidate(response).value| - 1] == '}'
  {
    var i := Find(response, '{');
    var j := RFind(response, '}');
    CandidateSpan(response);
    var text := response[i..j + 1];
    assert Candidate(response).value == text;
    assert |text| - 1 == j - i;
  }

  /** When the first `{` precedes the last `}`, the answer is the candidate
      with `{`-free text before it and `}`-free text after it. */
  lemma AnswerSurroundsCandidate(response: string)
    requires '{' in response && '}' in response
    requires Find(response, '{') < RFind(response, '}')
    ensures '{' !in response[..Find(response, '{')]
    ensures '}' !in response[RFind(response, '}') + 1..]
    ensures response == response[..Find(response, '{')] + Candidate(response).value + response[RFind(response, '}') + 1..]
  {
    var i := Find(response, '{');
    var j := RFind(response, '}');
    CandidateSpan(response);
    BracedSplit(response, i, j);
  }

  /** When the last `}` comes before the first `{`, the candidate is empty, the
      parser rejects it, and the result is the empty dictionary. */
  lemma ReversedBracesGiveEmpty<V>(response: string, parse: Parser<V>)
    requires '{' in response && '}' in response
    requires RFind(response, '}') < Find(response, '{')
    requires parse([]) == None
    ensures Candidate(response) == Some([])
    ensures CleanAndParse(response, parse) == map[]
  {
  }

  /** A parser failure on the candidate gives the empty dictionary; a success
      gives exactly the parsed dictionary. */
  lemma ParseOutcomeDecides<V>(response: string, parse: Parser<V>)
    requires Candidate(response).Some?
    ensures parse(Candidate(response).value).None? ==> CleanAndParse(response, parse) == map[]
    ensures parse(Candidate(response).value).Some? ==>
      CleanAndParse(response, parse) == parse(Candidate(response).value).value
  {
  }

  /** A `{` with no `{` before it is the one `Find` returns. */
  lemma FirstBraceAt(s: string, i: nat)
    requires i < |s| && s[i] == '{' && '{' !in s[..i]
    ensures Find(s, '{') == i
  {
    var r := Find(s, '{');
    assert forall k :: 0 <= k < i ==> s[k] == s[..i][k];
    assert r >= i;
  }

  /** A `}` with no `}` after it is the one `RFind` returns. */
  lemma LastBraceAt(s: string, j: nat)
    requires j < |s| && s[j] == '}' && '}' !in s[j + 1..]
    ensures RFind(s, '}') == j
  {
    var r := RFind(s, '}');
    assert forall k :: j < k < |s| ==> s[k] == s[j + 1..][k - j - 1];
    assert r <= j;
  }

  /** Text around a braced core never matters: with no `{` before it and no `}`
      after it, the answer yields the same candidate and the same result as the
      core alone. */
  lemma SurroundingTextIgnored<V>(before: string, core: string, after: string, parse: Parser<V>)
    requires |core| >= 2 && core[0] == '{' && core[|core| - 1] == '}'
    requires '{' !in before && '}' !in after
    ensures Candidate(before + core + after) == Some(core)
    ensures CleanAndParse(before + core + after, parse) == parse(core).GetOr(map[])
  {
    var response := before + core + after;
    var i := |before|;
    var j := |before| + |core| - 1;
    assert response[..i] == before;
    assert response[j + 1..] == after;
    assert response[i..j + 1] == core;
    FirstBraceAt(response, i);
    LastBraceAt(response, j);
    CandidateSpan(response);
  }

  /** Extraction is idempotent: the candidate of a braced candidate is itself,
      so the result is the same whether the answer or its candidate is parsed. */
  lemma ExtractionIdempotent<V>(response: string, parse: Parser<V>)
    requires '{' in response && '}' in response
    requires Find(response, '{') < RFind(response, '}')
    ensures Candidate(Candidate(response).value) == Candidate(response)
    ensures CleanAndParse(Candidate(response).value, parse) == CleanAndParse(response, parse)
  {
    var text := Candidate(response).value;
    CandidateIsBraced(response);
    CandidateSpan(response);
    SurroundingTextIgnored([], text, [], parse);
    assert [] + text + [] == text;
  }
}
