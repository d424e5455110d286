/** Text helpers behind the source's regular expressions and string
    concatenations: the Java regex class `\s`, `String.split("\\s+")`,
    `String.replaceAll("\\s+", " ")`, and the decimal rendering of an `int`. */
module Strings {

  /** Java's `\s`: space, tab, newline, vertical tab, form feed, carriage return. */
  predicate IsSpace(c: char) {
    c == ' ' || c == '\t' || c == '\n' || c as int == 11 || c as int == 12 || c == '\r'
  }

  /** `s` holds no whitespace at all (the regex `\s+` finds no match). */
  predicate NoSpace(s: string) {
    forall i :: 0 <= i < |s| ==> !IsSpace(s[i])
  }

  /** The result of a whitespace normalisation: the only whitespace is the
      plain space, and never two in a row. */
  predicate Collapsed(s: string) {
    && (forall i :: 0 <= i < |s| && IsSpace(s[i]) ==> s[i] == ' ')
    && (forall i :: 0 <= i < |s| - 1 ==> !(IsSpace(s[i]) && IsSpace(s[i + 1])))
  }

  /** The non-whitespace characters of `s`, in order. */
  function Visible(s: string): string
    decreases |s|
  {
    if |s| == 0 then "" else (if IsSpace(s[0]) then "" else [s[0]]) + Visible(s[1..])
  }

  /** `s` with its leading run of whitespace removed. */
  function DropSpaces(s: string): (r: string)
    ensures |r| <= |s| && r == s[|s| - |r|..]
    ensures |r| > 0 ==> !IsSpace(r[0])
    ensures forall i :: 0 <= i < |s| - |r| ==> IsSpace(s[i])
    decreases |s|
  {
    if |s| > 0 && IsSpace(s[0]) then DropSpaces(s[1..]) else s
  }

  /** Index of the first whitespace character of `s`, or `|s|` if there is none. */
  function WordEnd(s: string): (k: nat)
    ensures k <= |s|
    ensures forall i :: 0 <= i < k ==> !IsSpace(s[i])
    ensures k < |s| ==> IsSpace(s[k])
    decreases |s|
  {
    if |s| == 0 || IsSpace(s[0]) then 0 else 1 + WordEnd(s[1..])
  }

  /** `s.replaceAll("\\s+", " ")`: every maximal whitespace run becomes one space. */
  function Collapse(s: string): string
    decreases |s|
  {
    if |s| == 0 then ""
    else if IsSpace(s[0]) then " " + Collapse(DropSpaces(s))
    else [s[0]] + Collapse(s[1..])
  }

  /** The result of `Collapse` is normalised, and starts with whitespace
      exactly when the input does. */
  lemma {:induction false} CollapseIsCollapsed(s: string)
    ensures Collapsed(Collapse(s))
    ensures |Collapse(s)| > 0 <==> |s| > 0
    ensures |s| > 0 ==> (IsSpace(Collapse(s)[0]) <==> IsSpace(s[0]))
    decreases |s|
  {
    if |s| > 0 {
      var rest := if IsSpace(s[0]) then DropSpaces(s) else s[1..];
      CollapseIsCollapsed(rest);
      var c := Collapse(rest);
      var r := Collapse(s);
      assert r == [r[0]] + c;
      forall i | 0 <= i < |r| - 1 ensures !(IsSpace(r[i]) && IsSpace(r[i + 1])) {
        if i > 0 {
          assert r[i] == c[i - 1] && r[i + 1] == c[i];
        }
      }
    }
  }

  /** `Collapse` keeps every visible character, in order. */
  lemma {:induction false} CollapseKeepsVisible(s: string)
    ensures Visible(Collapse(s)) == Visible(s)
    decreases |s|
  {
    if |s| > 0 {
      if IsSpace(s[0]) {
        var rest := DropSpaces(s);
        CollapseKeepsVisible(rest);
        VisibleOfSpaces(s, rest);
        assert (" " + Collapse(rest))[1..] == Collapse(rest);
      } else {
        CollapseKeepsVisible(s[1..]);
        assert ([s[0]] + Collapse(s[1..]))[1..] == Collapse(s[1..]);
      }
    }
  }

  lemma {:induction false} VisibleOfSpaces(s: string, rest: string)
    requires rest == DropSpaces(s)
    ensures Visible(s) == Visible(rest)
    decreases |s|
  {
    if |s| > 0 && IsSpace(s[0]) {
      VisibleOfSpaces(s[1..], rest);
    }
  }

  /** An already normalised string is left unchanged, so `Collapse` is idempotent. */
  lemma {:induction false} CollapseFixpoint(s: string)
    requires Collapsed(s)
    ensures Collapse(s) == s
    decreases |s|
  {
    if |s| > 0 {
      assert Collapsed(s[1..]);
      CollapseFixpoint(s[1..]);
      if IsSpace(s[0]) {
        assert |s| == 1 || !IsSpace(s[1]);
        assert DropSpaces(s) == s[1..];
      }
    }
  }

  lemma CollapseIdempotent(s: string)
    ensures Collapse(Collapse(s)) == Collapse(s)
  {
    CollapseIsCollapsed(s);
    CollapseFixpoint(Collapse(s));
  }

  /** The fields of `s` around its maximal whitespace runs, keeping empty
      leading and trailing fields: the raw split before Java drops trailing
      empty strings. */
  function Fields(s: string): (r: seq<string>)
    ensures |r| >= 1
    decreases |s|
  {
    if |s| == 0 then [""]
    else if IsSpace(s[0]) then [""] + Fields(DropSpaces(s))
    else var f := Fields(s[1..]); [[s[0]] + f[0]] + f[1..]
  }

  function Join(xs: seq<string>, sep: string): string
    decreases |xs|
  {
    if |xs| == 0 then ""
    else if |xs| == 1 then xs[0]
    else xs[0] + sep + Join(xs[1..], sep)
  }

  function DropTrailingEmpty(xs: seq<string>): (r: seq<string>)
    ensures |r| <= |xs| && r == xs[..|r|]
    ensures |r| > 0 ==> r[|r| - 1] != ""
    ensures forall j :: |r| <= j < |xs| ==> xs[j] == ""
    decreases |xs|
  {
    if |xs| > 0 && xs[|xs| - 1] == "" then DropTrailingEmpty(xs[..|xs| - 1]) else xs
  }

  /** `s.split("\\s+")`: with no match the input itself, otherwise the fields
      around the whitespace runs with trailing empty fields removed. */
  function Split(s: string): (r: seq<string>)
    ensures forall j :: 0 <= j < |r| ==> NoSpace(r[j])
    ensures forall j :: 0 < j < |r| ==> r[j] != ""
    ensures NoSpace(s) ==> r == [s]
  {
    if NoSpace(s) then [s] else FieldsAreWords(s); DropTrailingEmpty(Fields(s))
  }

  /** No field holds whitespace, and only the first and last may be empty. */
  lemma {:induction false} FieldsAreWords(s: string)
    ensures forall j :: 0 <= j < |Fields(s)| ==> NoSpace(Fields(s)[j])
    ensures forall j :: 0 < j < |Fields(s)| - 1 ==> Fields(s)[j] != ""
    decreases |s|
  {
    if |s| > 0 {
      if IsSpace(s[0]) {
        var rest := DropSpaces(s);
        FieldsAreWords(rest);
        if |Fields(rest)| > 1 {
          assert rest != "" && !IsSpace(rest[0]);
        }
      } else {
        FieldsAreWords(s[1..]);
        var f := Fields(s[1..]);
        var w := [s[0]] + f[0];
        assert NoSpace(w) by {
          forall i | 0 <= i < |w| ensures !IsSpace(w[i]) {
            if i > 0 { assert w[i] == f[0][i - 1]; }
          }
        }
      }
    }
  }

  /** A leading empty field appears exactly when the input starts with
      whitespace and holds some visible character (or is empty). */
  lemma {:induction false} SplitLeadingEmpty(s: string)
    ensures |Split(s)| > 0 && Split(s)[0] == "" <==> s == "" || (IsSpace(s[0]) && Visible(s) != "")
  {
    if !NoSpace(s) {
      FieldsShape(s);
    } else if s != "" {
      assert !IsSpace(s[0]);
    }
  }

  /** A whitespace-only input splits into nothing at all. */
  lemma {:induction false} SplitAllSpaces(s: string)
    requires s != "" && Visible(s) == ""
    ensures Split(s) == []
  {
    FieldsShape(s);
  }

  /** The shape of `Fields(s)`: the first field is empty iff `s` starts with
      whitespace, all fields are empty iff `s` has no visible character, and
      any whitespace at all produces at least two fields. */
  lemma FieldsShape(s: string)
    ensures Fields(s)[0] == "" <==> s == "" || IsSpace(s[0])
    ensures Visible(s) == "" <==> AllEmpty(Fields(s))
    ensures !NoSpace(s) ==> |Fields(s)| >= 2
  {
    FieldsBlank(s);
    FieldsCount(s);
  }

  predicate AllEmpty(xs: seq<string>) {
    forall j :: 0 <= j < |xs| ==> xs[j] == ""
  }

  lemma {:induction false} FieldsBlank(s: string)
    ensures Visible(s) == "" <==> AllEmpty(Fields(s))
    decreases |s|
  {
    if |s| > 0 {
      var r := Fields(s);
      if IsSpace(s[0]) {
        var rest := DropSpaces(s);
        FieldsBlank(rest);
        VisibleOfSpaces(s, rest);
        var f := Fields(rest);
        assert r == [""] + f;
        assert AllEmpty(r) <==> AllEmpty(f) by {
          if AllEmpty(f) {
            forall j | 0 <= j < |r| ensures r[j] == "" {
              if j > 0 { assert r[j] == f[j - 1]; }
            }
          }
          if AllEmpty(r) {
            forall j | 0 <= j < |f| ensures f[j] == "" {
              assert f[j] == r[j + 1];
            }
          }
        }
      } else {
        assert r[0] != "";
        assert Visible(s) == [s[0]] + Visible(s[1..]);
      }
    }
  }

  lemma {:induction false} FieldsCount(s: string)
    ensures !NoSpace(s) ==> |Fields(s)| >= 2
    decreases |s|
  {
    if |s| > 0 && !IsSpace(s[0]) {
      FieldsCount(s[1..]);
      if !NoSpace(s) {
        var i :| 0 <= i < |s| && IsSpace(s[i]);
        assert i > 0 && IsSpace(s[1..][i - 1]);
      }
    }
  }

  lemma {:induction false} VisibleOfWord(s: string)
    requires NoSpace(s)
    ensures Visible(s) == s
    decreases |s|
  {
    if |s| > 0 {
      assert NoSpace(s[1..]) by {
        forall i | 0 <= i < |s[1..]| ensures !IsSpace(s[1..][i]) {
          assert s[1..][i] == s[i + 1];
        }
      }
      VisibleOfWord(s[1..]);
    }
  }

  /** Joining with the empty separator is concatenation. */
  lemma JoinEmptySeparatorCons(x: string, xs: seq<string>)
    ensures Join([x] + xs, "") == x + Join(xs, "")
  {
    if |xs| > 0 {
      assert ([x] + xs)[1..] == xs;
    }
  }

  lemma JoinConsHead(c: char, w: string, rest: seq<string>, sep: string)
    ensures Join([[c] + w] + rest, sep) == [c] + Join([w] + rest, sep)
  {
    if |rest| > 0 {
      assert ([[c] + w] + rest)[1..] == rest == ([w] + rest)[1..];
    }
  }

  /** Re-joining the fields with single spaces gives the normalised string:
      `split("\\s+")` and `replaceAll("\\s+", " ")` agree on the words. */
  lemma {:induction false} FieldsJoinCollapse(s: string)
    ensures Join(Fields(s), " ") == Collapse(s)
    decreases |s|
  {
    if |s| > 0 {
      if IsSpace(s[0]) {
        var rest := DropSpaces(s);
        FieldsJoinCollapse(rest);
        assert ([""] + Fields(rest))[1..] == Fields(rest);
      } else {
        FieldsJoinCollapse(s[1..]);
        var f := Fields(s[1..]);
        JoinConsHead(s[0], f[0], f[1..], " ");
        assert [f[0]] + f[1..] == f;
      }
    }
  }

  /** The tokens of `Split` joined by single spaces are the
      whitespace-normalised input, short of the one space a trailing
      whitespace run collapses to (Java drops the trailing empty token). */
  lemma {:induction false} SplitJoinCollapse(s: string)
    ensures Join(Split(s), " ") + (if s != "" && IsSpace(s[|s| - 1]) then " " else "") == Collapse(s)
  {
    if NoSpace(s) {
      VisibleOfWord(s);
      CollapseFixpoint(s);
      if s != "" { assert !IsSpace(s[|s| - 1]); }
    } else if !IsSpace(s[|s| - 1]) {
      FieldsJoinCollapse(s);
      FieldsLastNonEmpty(s);
    } else if Visible(s) == "" {
      SplitAllSpaces(s);
      AllSpacesCollapse(s);
    } else {
      var f := Fields(s);
      FieldsJoinCollapse(s);
      FieldsLastEmpty(s);
      FieldsShape(s);
      FieldsAreWords(s);
      var g := f[..|f| - 1];
      assert g[|g| - 1] != "";
      assert DropTrailingEmpty(f) == DropTrailingEmpty(g) == g;
      JoinSnoc(g, "", " ");
      assert g + [""] == f;
    }
  }

  /** A non-empty input of whitespace only collapses to one space. */
  lemma AllSpacesCollapse(s: string)
    requires s != "" && Visible(s) == ""
    ensures Collapse(s) == " "
  {
    var rest := DropSpaces(s);
    VisibleOfSpaces(s, rest);
  }

  lemma {:induction false} JoinSnoc(xs: seq<string>, x: string, sep: string)
    requires |xs| > 0
    ensures Join(xs + [x], sep) == Join(xs, sep) + sep + x
    decreases |xs|
  {
    if |xs| > 1 {
      assert (xs + [x])[1..] == xs[1..] + [x];
      JoinSnoc(xs[1..], x, sep);
    } else {
      assert (xs + [x])[1..] == [x];
    }
  }

  /** Input ending in whitespace has an empty last field. */
  lemma {:induction false} FieldsLastEmpty(s: string)
    requires s != "" && IsSpace(s[|s| - 1])
    ensures Fields(s)[|Fields(s)| - 1] == ""
    decreases |s|
  {
    if IsSpace(s[0]) {
      var rest := DropSpaces(s);
      if rest != "" {
        assert rest[|rest| - 1] == s[|s| - 1];
        FieldsLastEmpty(rest);
      }
    } else {
      assert |s| > 1 && IsSpace(s[1..][|s| - 2]);
      FieldsLastEmpty(s[1..]);
      FieldsCount(s[1..]);
    }
  }

  lemma {:induction false} FieldsLastNonEmpty(s: string)
    requires s != "" && !IsSpace(s[|s| - 1])
    ensures Fields(s)[|Fields(s)| - 1] != ""
    decreases |s|
  {
    if IsSpace(s[0]) {
      var rest := DropSpaces(s);
      assert rest != "" && rest[|rest| - 1] == s[|s| - 1];
      FieldsLastNonEmpty(rest);
    } else if |s| > 1 {
      FieldsLastNonEmpty(s[1..]);
    }
  }

  /** The decimal digit for `d`. */
  function Digit(d: nat): char
    requires d < 10
  {
    "0123456789"[d]
  }

  function DigitValue(c: char): nat {
    if '0' <= c <= '9' then c as int - '0' as int else 0
  }

  /** `Integer.toString(n)` for a non-negative `n`. */
  function Decimal(n: nat): (s: string)
    ensures |s| > 0
    ensures forall i :: 0 <= i < |s| ==> '0' <= s[i] <= '9'
    decreases n
  {
    if n < 10 then [Digit(n)] else Decimal(n / 10) + [Digit(n % 10)]
  }

  function ParseDecimal(s: string): nat
    decreases |s|
  {
    if |s| == 0 then 0 else 10 * ParseDecimal(s[..|s| - 1]) + DigitValue(s[|s| - 1])
  }

  lemma {:induction false} DecimalRoundTrip(n: nat)
    ensures ParseDecimal(Decimal(n)) == n
    decreases n
  {
    if n >= 10 {
      DecimalRoundTrip(n / 10);
      var s := Decimal(n);
      assert s[..|s| - 1] == Decimal(n / 10);
    }
  }

  /** Distinct counters render as distinct decimal strings. */
  lemma DecimalInjective(m: nat, n: nat)
    ensures Decimal(m) == Decimal(n) ==> m == n
  {
    DecimalRoundTrip(m);
    DecimalRoundTrip(n);
  }
}
