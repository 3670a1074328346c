/**
 * The Python string built-ins the file operations and the command executor rely on:
 * `str.count`, `str.replace` (with `str.split`/`str.join` as an independent reference),
 * the universal-newline translation of text-mode reads, the UTF-8 byte length that
 * `os.path.getsize` reports for a file written with `encoding='utf-8'`, and `str(int)`.
 */
module Text {

  // ---------------------------------------------------------------------------
  // str.count and str.replace: non-overlapping, global, left to right
  // ---------------------------------------------------------------------------

  /** `pat` occurs in `s` starting at index `i`. */
  predicate OccursAt(s: string, pat: string, i: int) {
    0 <= i && i + |pat| <= |s| && s[i..i + |pat|] == pat
  }

  /** `pat` is a substring of `s` (Python's `pat in s`). */
  ghost predicate Occurs(s: string, pat: string) {
    exists i :: OccursAt(s, pat, i)
  }

  /** Python's `s.count(pat)`: the number of non-overlapping occurrences found scanning
      left to right; the empty pattern is counted |s| + 1 times. */
  function Count(s: string, pat: string): nat
    decreases |s|
  {
    if pat == [] then |s| + 1
    else if |s| < |pat| then 0
    else if s[..|pat|] == pat then 1 + Count(s[|pat|..], pat)
    else Count(s[1..], pat)
  }

  /** Python's `s.replace(pat, rep)`: every non-overlapping occurrence, leftmost first, is
      replaced; an empty pattern inserts `rep` before every character and at the end. */
  function Replace(s: string, pat: string, rep: string): string
    decreases |s|
  {
    if pat == [] then
      if s == [] then rep else rep + [s[0]] + Replace(s[1..], pat, rep)
    else if |s| < |pat| then s
    else if s[..|pat|] == pat then rep + Replace(s[|pat|..], pat, rep)
    else [s[0]] + Replace(s[1..], pat, rep)
  }

  /** (1 + c) * d == d + c * d, kept out of the lemma below so that its proof stays linear. */
  lemma Distribute(c: int, d: int)
    ensures (1 + c) * d == d + c * d
  {
  }

  /** The length of the replaced text grows by |rep| - |pat| per counted occurrence. */
  lemma {:induction false} ReplaceLength(s: string, pat: string, rep: string)
    ensures |Replace(s, pat, rep)| == |s| + Count(s, pat) * (|rep| - |pat|)
    decreases |s|
  {
    if pat == [] {
      if s != [] {
        var tail := Replace(s[1..], pat, rep);
        ReplaceLength(s[1..], pat, rep);
        assert Replace(s, pat, rep) == rep + [s[0]] + tail;
        assert |tail| == |s| - 1 + |s| * |rep|;
        Distribute(|s|, |rep|);
      }
    } else if |s| < |pat| {
    } else if s[..|pat|] == pat {
      var tail := Replace(s[|pat|..], pat, rep);
      ReplaceLength(s[|pat|..], pat, rep);
      assert Replace(s, pat, rep) == rep + tail;
      Distribute(Count(s[|pat|..], pat), |rep| - |pat|);
    } else {
      ReplaceLength(s[1..], pat, rep);
      assert Replace(s, pat, rep) == [s[0]] + Replace(s[1..], pat, rep);
    }
  }

  /** The count is positive exactly when the pattern occurs in the text: this is what makes
      "String not found in file" mean that `old_string` is not a substring. */
  lemma {:induction false} CountPositiveIffOccurs(s: string, pat: string)
    ensures Count(s, pat) > 0 <==> Occurs(s, pat)
    decreases |s|
  {
    if pat == [] {
      assert OccursAt(s, pat, 0);
    } else if |s| < |pat| {
      forall i ensures !OccursAt(s, pat, i) {}
    } else if s[..|pat|] == pat {
      assert OccursAt(s, pat, 0);
    } else {
      CountPositiveIffOccurs(s[1..], pat);
      if Occurs(s[1..], pat) {
        var i :| OccursAt(s[1..], pat, i);
        assert s[1..][i..i + |pat|] == s[i + 1..i + 1 + |pat|];
        assert OccursAt(s, pat, i + 1);
      }
      if Occurs(s, pat) {
        var i :| OccursAt(s, pat, i);
        assert i != 0;
        assert s[1..][i - 1..i - 1 + |pat|] == s[i..i + |pat|];
        assert OccursAt(s[1..], pat, i - 1);
      }
    }
  }

  /** With no occurrence, replacing changes nothing. */
  lemma {:induction false} ReplaceWithoutOccurrence(s: string, pat: string, rep: string)
    requires Count(s, pat) == 0
    ensures Replace(s, pat, rep) == s
    decreases |s|
  {
    if pat != [] && |s| >= |pat| && s[..|pat|] != pat {
      ReplaceWithoutOccurrence(s[1..], pat, rep);
    }
  }

  /** Replacing a pattern by itself gives the text back. */
  lemma {:induction false} ReplaceBySelf(s: string, pat: string)
    ensures Replace(s, pat, pat) == s
    decreases |s|
  {
    if pat == [] {
      if s != [] {
        ReplaceBySelf(s[1..], pat);
        assert s == [s[0]] + s[1..];
      }
    } else if |s| < |pat| {
    } else if s[..|pat|] == pat {
      ReplaceBySelf(s[|pat|..], pat);
      assert s == s[..|pat|] + s[|pat|..];
    } else {
      ReplaceBySelf(s[1..], pat);
      assert s == [s[0]] + s[1..];
    }
  }

  /** Python's `s.split(sep)` for a non-empty separator: the pieces between the
      non-overlapping occurrences of `sep`, leftmost first. */
  function Split(s: string, sep: string): (parts: seq<string>)
    requires sep != []
    ensures |parts| >= 1
    decreases |s|
  {
    if |s| < |sep| then [s]
    else if s[..|sep|] == sep then [[]] + Split(s[|sep|..], sep)
    else
      var rest := Split(s[1..], sep);
      [[s[0]] + rest[0]] + rest[1..]
  }

  /** Python's `sep.join(parts)`. */
  function Join(parts: seq<string>, sep: string): string
    requires |parts| >= 1
    decreases |parts|
  {
    if |parts| == 1 then parts[0] else parts[0] + sep + Join(parts[1..], sep)
  }

  /** Putting a character in front of the first piece puts it in front of the joined text. */
  lemma ConsFirstPiece(c: char, parts: seq<string>, sep: string)
    requires |parts| >= 1
    ensures Join([[c] + parts[0]] + parts[1..], sep) == [c] + Join(parts, sep)
  {
    var q := [[c] + parts[0]] + parts[1..];
    if |parts| > 1 {
      assert q[1..] == parts[1..];
    }
  }

  /** Reference definition: `s.replace(sep, rep) == rep.join(s.split(sep))`, and the count is
      one less than the number of pieces. */
  lemma {:induction false} ReplaceIsJoinOfSplit(s: string, sep: string, rep: string)
    requires sep != []
    ensures Replace(s, sep, rep) == Join(Split(s, sep), rep)
    ensures Count(s, sep) == |Split(s, sep)| - 1
    decreases |s|
  {
    if |s| < |sep| {
    } else if s[..|sep|] == sep {
      ReplaceIsJoinOfSplit(s[|sep|..], sep, rep);
      var q := [[]] + Split(s[|sep|..], sep);
      assert q[1..] == Split(s[|sep|..], sep);
    } else {
      ReplaceIsJoinOfSplit(s[1..], sep, rep);
      ConsFirstPiece(s[0], Split(s[1..], sep), rep);
    }
  }

  /** The worked example of an edit: "aXbXc" with X replaced by Y. */
  lemma ReplaceExample()
    ensures Count("aXbXc", "X") == 2
    ensures Replace("aXbXc", "X", "Y") == "aYbYc"
  {
    assert "c"[..1] != "X" && "c"[1..] == "";
    assert Count("c", "X") == 0 && Replace("c", "X", "Y") == "c";
    assert "Xc"[..1] == "X" && "Xc"[1..] == "c";
    assert Count("Xc", "X") == 1 && Replace("Xc", "X", "Y") == "Yc";
    assert "bXc"[..1] != "X" && "bXc"[1..] == "Xc";
    assert Count("bXc", "X") == 1 && Replace("bXc", "X", "Y") == "bYc";
    assert "XbXc"[..1] == "X" && "XbXc"[1..] == "bXc";
    assert Count("XbXc", "X") == 2 && Replace("XbXc", "X", "Y") == "YbYc";
    assert "aXbXc"[..1] != "X" && "aXbXc"[1..] == "XbXc";
  }

  // ---------------------------------------------------------------------------
  // Text-mode reading and UTF-8 size
  // ---------------------------------------------------------------------------

  /** What `open(path, 'r').read()` returns for stored text: universal-newline mode turns
      every "\r\n" and every lone "\r" into "\n". */
  function Universal(s: string): string
    decreases |s|
  {
    if s == [] then []
    else if s[0] == '\r' then
      "\n" + Universal(if |s| > 1 && s[1] == '\n' then s[2..] else s[1..])
    else [s[0]] + Universal(s[1..])
  }

  /** Text read in universal-newline mode never holds a carriage return. */
  lemma {:induction false} UniversalHasNoCarriageReturn(s: string)
    ensures '\r' !in Universal(s)
    decreases |s|
  {
    if s == [] {
    } else if s[0] == '\r' {
      UniversalHasNoCarriageReturn(if |s| > 1 && s[1] == '\n' then s[2..] else s[1..]);
    } else {
      UniversalHasNoCarriageReturn(s[1..]);
    }
  }

  /** Reading gives back exactly what is stored if and only if it holds no carriage return. */
  lemma {:induction false} UniversalIdentity(s: string)
    ensures Universal(s) == s <==> '\r' !in s
    decreases |s|
  {
    UniversalHasNoCarriageReturn(s);
    if s != [] && s[0] != '\r' {
      UniversalIdentity(s[1..]);
      assert s == [s[0]] + s[1..];
      if '\r' !in s {
        assert '\r' !in s[1..];
      }
    }
  }

  /** Bytes needed to encode one character in UTF-8. */
  function Utf8Width(c: char): nat {
    if c as int < 0x80 then 1
    else if c as int < 0x800 then 2
    else if c as int < 0x10000 then 3
    else 4
  }

  /** Byte length of the UTF-8 encoding of `s`, which is what `os.path.getsize` reports for a
      file written with `encoding='utf-8'`. */
  function Utf8Length(s: string): nat
    decreases |s|
  {
    if s == [] then 0 else Utf8Width(s[0]) + Utf8Length(s[1..])
  }

  /** The size lies between one and four bytes per character, and equals the character count
      exactly when every character is ASCII. */
  lemma {:induction false} Utf8LengthBounds(s: string)
    ensures |s| <= Utf8Length(s) <= 4 * |s|
    ensures Utf8Length(s) == |s| <==> forall i :: 0 <= i < |s| ==> s[i] as int < 0x80
    decreases |s|
  {
    if s != [] {
      Utf8LengthBounds(s[1..]);
      if Utf8Length(s) == |s| {
        forall i | 0 <= i < |s| ensures s[i] as int < 0x80 {
          if i > 0 { assert s[i] == s[1..][i - 1]; }
        }
      }
      if forall i :: 0 <= i < |s| ==> s[i] as int < 0x80 {
        forall i | 0 <= i < |s| - 1 ensures s[1..][i] as int < 0x80 {
          assert s[1..][i] == s[i + 1];
        }
      }
    }
  }

  // ---------------------------------------------------------------------------
  // str(int), used in the timeout message
  // ---------------------------------------------------------------------------

  function DigitChar(d: nat): char
    requires d < 10
  {
    "0123456789"[d]
  }

  function DigitValue(c: char): nat {
    if '0' <= c <= '9' then c as int - '0' as int else 0
  }

  /** Decimal digits of `n`, most significant first, with no leading zero. */
  function NatToDecimal(n: nat): string
    decreases n
  {
    if n < 10 then [DigitChar(n)] else NatToDecimal(n / 10) + [DigitChar(n % 10)]
  }

  /** Python's `str(i)` for an int. */
  function IntToDecimal(i: int): string {
    if i < 0 then "-" + NatToDecimal(-i) else NatToDecimal(i)
  }

  /** Reads back a string of decimal digits. */
  function DecimalValue(s: string): nat
    decreases |s|
  {
    if s == [] then 0 else 10 * DecimalValue(s[..|s| - 1]) + DigitValue(s[|s| - 1])
  }

  /** Reads back the result of `IntToDecimal`. */
  function ParseInt(s: string): int {
    if |s| > 0 && s[0] == '-' then -(DecimalValue(s[1..]) as int) else DecimalValue(s)
  }

  /** `str(n)` is a non-empty string of digits without a leading zero that reads back as `n`. */
  lemma {:induction false} NatToDecimalRoundTrip(n: nat)
    ensures DecimalValue(NatToDecimal(n)) == n
    ensures |NatToDecimal(n)| > 0 && (NatToDecimal(n)[0] == '0' ==> n == 0)
    ensures forall i :: 0 <= i < |NatToDecimal(n)| ==> '0' <= NatToDecimal(n)[i] <= '9'
    decreases n
  {
    if n >= 10 {
      NatToDecimalRoundTrip(n / 10);
      var s := NatToDecimal(n / 10) + [DigitChar(n % 10)];
      assert s[..|s| - 1] == NatToDecimal(n / 10);
    }
  }

  /** `str(i)` reads back as `i` for every int, negative ones included. */
  lemma IntToDecimalRoundTrip(i: int)
    ensures ParseInt(IntToDecimal(i)) == i
  {
    if i < 0 {
      var d := NatToDecimal(-i);
      NatToDecimalRoundTrip(-i);
      var s := "-" + d;
      assert s[0] == '-' && s[1..] == d;
      assert ParseInt(s) == -(DecimalValue(d) as int);
    } else {
      var d := NatToDecimal(i);
      NatToDecimalRoundTrip(i);
      assert '0' <= d[0] <= '9';
      assert ParseInt(d) == DecimalValue(d);
    }
  }
}
