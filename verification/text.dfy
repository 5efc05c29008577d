/** String helpers: joining, counting characters, the case folding of
    `String.equalsIgnoreCase` for ASCII letters, blankness as `String.trim`
    sees it, and decimal rendering of integers. */
module Text {

  /** Number of occurrences of `c` in `s`. */
  function Occurrences(s: string, c: char): nat
  {
    if |s| == 0 then 0 else Occurrences(s[..|s| - 1], c) + (if s[|s| - 1] == c then 1 else 0)
  }

  /** Counting distributes over concatenation. */
  lemma {:induction false} OccurrencesAppend(a: string, b: string, c: char)
    ensures Occurrences(a + b, c) == Occurrences(a, c) + Occurrences(b, c)
  {
    if |b| == 0 {
      assert a + b == a;
    } else {
      assert (a + b)[..|a + b| - 1] == a + b[..|b| - 1];
      OccurrencesAppend(a, b[..|b| - 1], c);
    }
  }

  /** A character that does not occur is counted zero times. */
  lemma {:induction false} OccurrencesAbsent(s: string, c: char)
    requires c !in s
    ensures Occurrences(s, c) == 0
  {
    if |s| > 0 {
      assert forall i :: 0 <= i < |s| - 1 ==> s[..|s| - 1][i] == s[i];
      OccurrencesAbsent(s[..|s| - 1], c);
    }
  }

  /** `parts` separated by `sep`, as a loop appending "prefix + part" builds it. */
  function Join(parts: seq<string>, sep: string): string
  {
    if |parts| == 0 then ""
    else if |parts| == 1 then parts[0]
    else Join(parts[..|parts| - 1], sep) + sep + parts[|parts| - 1]
  }

  /** Appending one more part extends the joined text by the separator and that part. */
  lemma JoinSnoc(parts: seq<string>, part: string, sep: string)
    ensures Join(parts + [part], sep) == if |parts| == 0 then part else Join(parts, sep) + sep + part
  {
    assert (parts + [part])[..|parts|] == parts;
  }

  /** Joining texts that hold no `?` with a separator that holds none yields no `?`. */
  lemma {:induction false} JoinWithoutMarks(parts: seq<string>, sep: string)
    requires '?' !in sep
    requires forall i :: 0 <= i < |parts| ==> '?' !in parts[i]
    ensures '?' !in Join(parts, sep)
  {
    if |parts| > 1 {
      JoinWithoutMarks(parts[..|parts| - 1], sep);
    }
  }

  /** A text free of `?` followed by the comparison " = ?" or " > ?" holds exactly one `?`. */
  lemma ComparisonMark(a: string, comparison: string)
    requires '?' !in a
    requires comparison == " = ?" || comparison == " > ?"
    ensures Occurrences(a + comparison, '?') == 1
  {
    OccurrencesAbsent(a, '?');
    OccurrencesAppend(a, comparison, '?');
    assert Occurrences(comparison, '?') == 1 by {
      assert comparison == comparison[..3] + "?";
      OccurrencesAbsent(comparison[..3], '?');
    }
  }

  /** A condition "<connector><name> = ?" appended to a text adds one `?`
      when neither the connector nor the name holds one. */
  lemma ConditionMark(p: string, connector: string, name: string)
    requires '?' !in connector && '?' !in name
    ensures Occurrences(p + connector + name + " = ?", '?') == Occurrences(p, '?') + 1
  {
    AppendTwo(p, connector, name, " = ?");
    OccurrencesAppend(p, connector + name + " = ?", '?');
    ComparisonMark(connector + name, " = ?");
  }

  /** Appending two pieces one after the other extends by their concatenation. */
  lemma AppendTwo(a: string, b: string, c: string, d: string)
    ensures a + b + c + d == a + (b + c + d)
  {
  }

  /** Regrouping an inner concatenation. */
  lemma AppendInner(a: string, b: string, c: string, d: string)
    ensures a + (b + c) + d == a + b + c + d
  {
  }

  /** `n` placeholders. */
  function Marks(n: nat): seq<string>
  {
    seq(n, _ => "?")
  }

  /** Joining `n` placeholders with a separator free of `?` yields exactly `n` of them. */
  lemma {:induction false} JoinMarksCount(n: nat, sep: string)
    requires '?' !in sep
    ensures Occurrences(Join(Marks(n), sep), '?') == n
  {
    var marks := Marks(n);
    if n > 1 {
      assert marks[..n - 1] == Marks(n - 1);
      JoinMarksCount(n - 1, sep);
      var init := Join(Marks(n - 1), sep);
      assert Join(marks, sep) == init + sep + "?";
      OccurrencesAppend(init + sep, "?", '?');
      OccurrencesAppend(init, sep, '?');
      OccurrencesAbsent(sep, '?');
      assert Occurrences("?", '?') == 1;
    } else if n == 1 {
      assert Join(marks, sep) == "?";
      assert Occurrences("?", '?') == 1;
    }
  }

  function Upper(c: char): char
  {
    if 'a' <= c <= 'z' then (c as int - 32) as char else c
  }

  /** `String.equalsIgnoreCase`, for the ASCII texts the library compares against. */
  predicate EqualsIgnoreCase(a: string, b: string)
  {
    |a| == |b| && forall i :: 0 <= i < |a| ==> Upper(a[i]) == Upper(b[i])
  }

  /** True when `String.trim` would leave nothing: every character is at most a space. */
  predicate IsBlank(s: string)
  {
    forall i :: 0 <= i < |s| ==> s[i] <= ' '
  }

  function DigitChar(d: nat): (c: char)
    requires d < 10
    ensures '0' <= c <= '9'
  {
    ('0' as int + d) as char
  }

  /** Decimal rendering of a natural number, as `StringBuilder.append(int)` prints it. */
  function NatToString(n: nat): (r: string)
    ensures |r| > 0
    ensures forall i :: 0 <= i < |r| ==> '0' <= r[i] <= '9'
    decreases n
  {
    if n < 10 then [DigitChar(n)] else NatToString(n / 10) + [DigitChar(n % 10)]
  }

  /** Decimal rendering of an integer, with a leading minus sign when negative. */
  function IntToString(i: int): (r: string)
    ensures '?' !in r
    ensures i >= 0 ==> r == NatToString(i)
  {
    if i < 0 then "-" + NatToString(-i) else NatToString(i)
  }
}
