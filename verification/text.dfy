/** Small facts about text: concatenation of lines, suffixes, line breaks. */
module Text {

  function Concat(lines: seq<string>): string {
    if |lines| == 0 then "" else lines[0] + Concat(lines[1..])
  }

  /**
   The lines `format` gives each item, numbered from `count` on: the source's
   loop over `nearby.items()` with `count` going up by one per item.
   */
  function Numbered<T>(items: seq<T>, count: nat, format: (nat, T) -> string): seq<string> {
    if |items| == 0 then [] else [format(count, items[0])] + Numbered(items[1..], count + 1, format)
  }

  /** The numbering is consecutive: item `i` is formatted with number `count + i`. */
  lemma {:induction false} NumberedAt<T>(items: seq<T>, count: nat, format: (nat, T) -> string)
    ensures |Numbered(items, count, format)| == |items|
    ensures forall i :: 0 <= i < |items| ==> Numbered(items, count, format)[i] == format(count + i, items[i])
    decreases |items|
  {
    if |items| > 0 {
      var lines := Numbered(items, count, format);
      var rest := Numbered(items[1..], count + 1, format);
      NumberedAt(items[1..], count + 1, format);
      assert lines[1..] == rest;
      forall i | 1 <= i < |items|
        ensures lines[i] == format(count + i, items[i])
      {
        assert lines[i] == rest[i - 1] && items[1..][i - 1] == items[i];
      }
    }
  }

  predicate EndsWith(s: string, suffix: string) {
    |suffix| <= |s| && s[|s| - |suffix|..] == suffix
  }

  predicate NoLineBreak(s: string) {
    '\n' !in s
  }

  /** The number of line breaks in `s`. */
  function LineBreaks(s: string): nat {
    if |s| == 0 then 0
    else LineBreaks(s[..|s| - 1]) + (if s[|s| - 1] == '\n' then 1 else 0)
  }

  lemma {:induction false} NoBreakCount(s: string)
    requires NoLineBreak(s)
    ensures LineBreaks(s) == 0
    decreases |s|
  {
    if |s| > 0 {
      NoBreakCount(s[..|s| - 1]);
    }
  }

  lemma {:induction false} BreaksAppend(a: string, b: string)
    ensures LineBreaks(a + b) == LineBreaks(a) + LineBreaks(b)
    decreases |b|
  {
    if |b| == 0 {
      assert a + b == a;
    } else {
      assert (a + b)[..|a + b| - 1] == a + b[..|b| - 1];
      BreaksAppend(a, b[..|b| - 1]);
    }
  }

  /** A text without line breaks followed by one line break holds exactly one. */
  lemma OneBreak(body: string)
    requires NoLineBreak(body)
    ensures LineBreaks(body + "\n") == 1
  {
    NoBreakCount(body);
    assert (body + "\n")[..|body|] == body;
  }
}
