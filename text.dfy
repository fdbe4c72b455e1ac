/** The few Python string builtins the parser relies on: `s.replace("\n", "")`,
    `s.split(sep)`, its inverse `sep.join(fields)`, and the slice `s[-2:]`. */
module Text {

  /** `s.replace("\n", "")`: every line feed removed, everything else kept in order. */
  function RemoveNewlines(s: string): (r: string)
    ensures |r| <= |s|
  {
    if |s| == 0 then []
    else (if s[0] == '\n' then [] else [s[0]]) + RemoveNewlines(s[1..])
  }

  /** Exactly the line feeds go: every other character stays, and text
      without a line feed is returned unchanged. */
  lemma {:induction false} RemoveNewlinesMembers(s: string)
    ensures forall c :: c in RemoveNewlines(s) <==> c in s && c != '\n'
    ensures '\n' !in s ==> RemoveNewlines(s) == s
  {
    if |s| > 0 {
      RemoveNewlinesMembers(s[1..]);
      assert s == [s[0]] + s[1..];
    }
  }

  /** One character: a line feed goes, any other character stays. */
  lemma RemoveNewlinesChar(c: char)
    ensures RemoveNewlines([c]) == if c == '\n' then [] else [c]
  {
  }

  /** Line feeds are removed piece by piece and the pieces keep their order;
      with `RemoveNewlinesChar` this fixes the result on every text. */
  lemma {:induction false} RemoveNewlinesAppend(a: string, b: string)
    ensures RemoveNewlines(a + b) == RemoveNewlines(a) + RemoveNewlines(b)
  {
    if |a| > 0 {
      RemoveNewlinesAppend(a[1..], b);
      assert (a + b)[1..] == a[1..] + b;
    } else {
      assert a + b == b;
    }
  }

  /** A line as `readlines` gives it, ending in one line feed, is cleaned back
      to the line itself. */
  lemma LineEndingRemoved(line: string)
    requires '\n' !in line
    ensures RemoveNewlines(line + "\n") == line
  {
    RemoveNewlinesAppend(line, "\n");
    RemoveNewlinesMembers(line);
  }

  /** Removing line feeds twice is the same as removing them once. */
  lemma RemoveNewlinesIdempotent(s: string)
    ensures RemoveNewlines(RemoveNewlines(s)) == RemoveNewlines(s)
  {
    RemoveNewlinesMembers(s);
    RemoveNewlinesMembers(RemoveNewlines(s));
  }

  /** `s[-2:]`: the last two characters, or the whole text when it is shorter. */
  function LastTwo(s: string): (r: string)
    ensures |r| == if |s| < 2 then |s| else 2
    ensures s == s[..|s| - |r|] + r
  {
    if |s| < 2 then s else s[|s| - 2..]
  }

  /** `s.split(sep)`: the pieces between separators; never empty, `""` gives `[""]`. */
  function Split(s: string, sep: char): (fields: seq<string>)
    ensures |fields| >= 1
    ensures forall i :: 0 <= i < |fields| ==> sep !in fields[i]
    ensures |fields| == 1 <==> sep !in s
  {
    if |s| == 0 then [""]
    else
      var rest := Split(s[1..], sep);
      if s[0] == sep then [""] + rest
      else [[s[0]] + rest[0]] + rest[1..]
  }

  /** `sep.join(fields)`. */
  function Join(fields: seq<string>, sep: char): string
    requires |fields| >= 1
  {
    if |fields| == 1 then fields[0] else fields[0] + [sep] + Join(fields[1..], sep)
  }

  /** Joining the pieces of a split gives back the text. */
  lemma {:induction false} JoinSplit(s: string, sep: char)
    ensures Join(Split(s, sep), sep) == s
  {
    if |s| > 0 {
      JoinSplit(s[1..], sep);
      var rest := Split(s[1..], sep);
      if s[0] == sep {
        assert Split(s, sep)[1..] == rest;
        assert s == [sep] + s[1..];
      } else if |rest| == 1 {
        assert s == [s[0]] + s[1..];
      } else {
        assert Split(s, sep)[1..] == rest[1..];
        assert s == [s[0]] + s[1..];
        assert s[1..] == rest[0] + [sep] + Join(rest[1..], sep);
      }
    }
  }

  /** A piece without separators followed by a separator splits off as one field. */
  lemma {:induction false} SplitAfterField(x: string, y: string, sep: char)
    requires sep !in x
    ensures Split(x + [sep] + y, sep) == [x] + Split(y, sep)
  {
    if |x| > 0 {
      var s, rest := x + [sep] + y, [x[1..]] + Split(y, sep);
      assert s[0] == x[0] != sep;
      assert s[1..] == x[1..] + [sep] + y;
      SplitAfterField(x[1..], y, sep);
      assert Split(s, sep) == [[x[0]] + rest[0]] + rest[1..];
      assert rest[0] == x[1..] && rest[1..] == Split(y, sep);
      assert [x[0]] + x[1..] == x;
    } else {
      assert x + [sep] + y == [sep] + y;
      assert ([sep] + y)[1..] == y;
    }
  }

  /** Splitting a join of separator-free pieces gives back the pieces. */
  lemma {:induction false} SplitJoin(fields: seq<string>, sep: char)
    requires |fields| >= 1
    requires forall i :: 0 <= i < |fields| ==> sep !in fields[i]
    ensures Split(Join(fields, sep), sep) == fields
  {
    if |fields| == 1 {
      SplitWithoutSeparator(fields[0], sep);
    } else {
      SplitJoin(fields[1..], sep);
      SplitAfterField(fields[0], Join(fields[1..], sep), sep);
      assert [fields[0]] + fields[1..] == fields;
    }
  }

  /** Text without a separator is one field. */
  lemma {:induction false} SplitWithoutSeparator(s: string, sep: char)
    requires sep !in s
    ensures Split(s, sep) == [s]
  {
    if |s| > 0 {
      SplitWithoutSeparator(s[1..], sep);
      assert [s[0]] + s[1..] == s;
    }
  }
}
