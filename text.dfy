/** String helpers shared by the converter and the export code: JavaScript's
    `String.prototype.split` on a one-character separator, its inverse `Join`,
    the newline-terminated text layout of the ASCII art, and the decimal
    rendering of a number inside a template literal. */
module Text {

  datatype Option<T> = None | Some(value: T)

  /** `s.split(sep)` for a one-character separator: the pieces between
      separators, always at least one (`"".split(sep)` is `[""]`). */
  function Split(s: string, sep: char): (parts: seq<string>)
    ensures |parts| >= 1
    decreases |s|
  {
    if s == [] then [[]]
    else
      var rest := Split(s[1..], sep);
      if s[0] == sep then [[]] + rest
      else [[s[0]] + rest[0]] + rest[1..]
  }

  /** `parts.join(sep)`. */
  function Join(parts: seq<string>, sep: char): string
    requires |parts| >= 1
    decreases |parts|
  {
    if |parts| == 1 then parts[0] else parts[0] + [sep] + Join(parts[1..], sep)
  }

  /** No piece of a split contains the separator, and joining the pieces
      back gives the original string. */
  lemma {:induction false} JoinSplit(s: string, sep: char)
    ensures forall p <- Split(s, sep) :: sep !in p
    ensures Join(Split(s, sep), sep) == s
    decreases |s|
  {
    if s != [] {
      var rest := Split(s[1..], sep);
      JoinSplit(s[1..], sep);
      if s[0] == sep {
        assert Split(s, sep) == [[]] + rest;
      } else {
        var parts := Split(s, sep);
        assert parts == [[s[0]] + rest[0]] + rest[1..];
        forall p <- parts ensures sep !in p {
          if p != parts[0] {
            assert p in rest[1..];
          }
        }
        if |rest| == 1 {
          assert Join(parts, sep) == [s[0]] + rest[0];
        } else {
          assert parts[1..] == rest[1..];
          assert Join(rest, sep) == rest[0] + [sep] + Join(rest[1..], sep);
        }
        assert [s[0]] + s[1..] == s;
      }
    }
  }

  /** The first piece of a split is the longest separator-free prefix: it
      is followed by the separator or by the end of the string. */
  lemma {:induction false} SplitHead(s: string, sep: char)
    ensures var p := Split(s, sep)[0];
            sep !in p && p <= s && (|p| == |s| || s[|p|] == sep)
    decreases |s|
  {
    if s != [] && s[0] != sep {
      SplitHead(s[1..], sep);
      assert [s[0]] + s[1..] == s;
    }
  }

  /** A string without the separator splits into itself. */
  lemma {:induction false} SplitWithoutSep(a: string, sep: char)
    requires sep !in a
    ensures Split(a, sep) == [a]
    decreases |a|
  {
    if a != [] {
      SplitWithoutSep(a[1..], sep);
      assert [a[0]] + a[1..] == a;
    }
  }

  /** Splitting `a + sep + b` for a separator-free `a` yields `a` first,
      then the pieces of `b`. */
  lemma {:induction false} SplitAfter(a: string, b: string, sep: char)
    requires sep !in a
    ensures Split(a + [sep] + b, sep) == [a] + Split(b, sep)
    decreases |a|
  {
    var s := a + [sep] + b;
    if a == [] {
      assert s[1..] == b;
    } else {
      assert s[1..] == a[1..] + [sep] + b;
      SplitAfter(a[1..], b, sep);
      assert [a[0]] + a[1..] == a;
    }
  }

  /** Splitting undoes joining, when no piece holds the separator. */
  lemma {:induction false} SplitJoin(parts: seq<string>, sep: char)
    requires |parts| >= 1
    requires forall k | 0 <= k < |parts| :: sep !in parts[k]
    ensures Split(Join(parts, sep), sep) == parts
    decreases |parts|
  {
    if |parts| == 1 {
      SplitWithoutSep(parts[0], sep);
    } else {
      assert forall k | 0 <= k < |parts| - 1 :: parts[1..][k] == parts[k + 1];
      SplitJoin(parts[1..], sep);
      SplitAfter(parts[0], Join(parts[1..], sep), sep);
      assert [parts[0]] + parts[1..] == parts;
    }
  }

  /** The text `generateAscii` accumulates: every row followed by one
      newline. */
  function Layout(rows: seq<string>): (text: string)
    ensures text == [] <==> rows == []
    ensures text != [] ==> text[|text| - 1] == '\n'
    ensures |text| >= |rows|
    decreases |rows|
  {
    if rows == [] then [] else rows[0] + "\n" + Layout(rows[1..])
  }

  /** Appending a row to the layout appends that row and a newline, which
      is how the text is built up row by row. */
  lemma {:induction false} LayoutAppend(rows: seq<string>, row: string)
    ensures Layout(rows + [row]) == Layout(rows) + row + "\n"
    decreases |rows|
  {
    if rows != [] {
      assert (rows + [row])[1..] == rows[1..] + [row];
      LayoutAppend(rows[1..], row);
    }
  }

  /** The layout is the rows and one trailing empty piece, joined on
      newlines. */
  lemma {:induction false} LayoutIsJoin(rows: seq<string>)
    ensures Layout(rows) == Join(rows + [""], '\n')
    decreases |rows|
  {
    if rows != [] {
      LayoutIsJoin(rows[1..]);
      assert (rows + [""])[1..] == rows[1..] + [""];
    }
  }

  /** Splitting the layout on newlines gives back the rows, followed by
      the empty piece after the last newline. */
  lemma SplitLayout(rows: seq<string>)
    requires forall k | 0 <= k < |rows| :: '\n' !in rows[k]
    ensures Split(Layout(rows), '\n') == rows + [""]
  {
    LayoutIsJoin(rows);
    var parts := rows + [""];
    forall k | 0 <= k < |parts| ensures '\n' !in parts[k] {
      if k < |rows| {
        assert parts[k] == rows[k];
      }
    }
    SplitJoin(rows + [""], '\n');
  }

  /** For rows all of length `w`, the layout has `w + 1` characters per
      row. */
  lemma {:induction false} LayoutLength(rows: seq<string>, w: nat)
    requires forall k | 0 <= k < |rows| :: |rows[k]| == w
    ensures |Layout(rows)| == |rows| * (w + 1)
    decreases |rows|
  {
    if rows != [] {
      assert forall k | 0 <= k < |rows| - 1 :: rows[1..][k] == rows[k + 1];
      LayoutLength(rows[1..], w);
      assert |rows| * (w + 1) == (w + 1) + (|rows| - 1) * (w + 1);
    }
  }

  /** For rows all of length `w`, row `y`'s character `x` sits at
      `y * (w + 1) + x` of the layout, and its newline at `y * (w + 1) + w`. */
  lemma {:induction false} LayoutCell(rows: seq<string>, w: nat, y: nat, x: nat)
    requires forall k | 0 <= k < |rows| :: |rows[k]| == w
    requires y < |rows| && x <= w
    ensures y * (w + 1) + x < |Layout(rows)|
    ensures Layout(rows)[y * (w + 1) + x] == if x < w then rows[y][x] else '\n'
    decreases y
  {
    LayoutLength(rows, w);
    CellBound(w, |rows|, y, x);
    var rest := rows[1..];
    var head := rows[0] + "\n";
    var t := Layout(rows);
    assert t == head + Layout(rest);
    assert |head| == w + 1;
    if y == 0 {
      assert t[x] == head[x];
    } else {
      assert forall k | 0 <= k < |rest| :: rest[k] == rows[k + 1];
      LayoutCell(rest, w, y - 1, x);
      CellShift(w, y, x);
      var j := (y - 1) * (w + 1) + x;
      assert t[y * (w + 1) + x] == Layout(rest)[j];
      assert rest[y - 1] == rows[y];
    }
  }

  lemma CellBound(w: nat, n: nat, y: nat, x: nat)
    requires y < n && x <= w
    ensures y * (w + 1) + x < n * (w + 1)
  {
    MulMonotone(y + 1, n, w + 1);
  }

  lemma CellShift(w: nat, y: nat, x: nat)
    requires y > 0
    ensures y * (w + 1) + x == (w + 1) + ((y - 1) * (w + 1) + x)
  {
  }

  /** For newline-free rows all of length `w`, a character of the layout is
      a newline exactly when its position is the last of a `w + 1` block;
      every other character is the cell of row `i / (w + 1)` at column
      `i % (w + 1)`. */
  lemma LayoutAtIndex(rows: seq<string>, w: nat, i: nat)
    requires forall k | 0 <= k < |rows| :: |rows[k]| == w && '\n' !in rows[k]
    requires i < |Layout(rows)|
    ensures i / (w + 1) < |rows|
    ensures Layout(rows)[i] == '\n' <==> i % (w + 1) == w
    ensures i % (w + 1) < w ==> Layout(rows)[i] == rows[i / (w + 1)][i % (w + 1)]
  {
    LayoutLength(rows, w);
    var y, x := Decompose(i, w + 1, |rows|);
    LayoutCell(rows, w, y, x);
    if x < w {
      assert rows[y][x] in rows[y];
    }
  }

  /** Position `i` of a block of `n` rows of `m` is row `i / m`, column `i % m`. */
  lemma Decompose(i: nat, m: nat, n: nat) returns (y: nat, x: nat)
    requires m > 0 && i < n * m
    ensures y == i / m && x == i % m
    ensures y < n && x < m && i == y * m + x
  {
    y, x := i / m, i % m;
    if y >= n {
      MulMonotone(n, y, m);
    }
  }

  lemma MulMonotone(a: nat, b: nat, c: nat)
    requires a <= b
    ensures a * c <= b * c
  {
  }

  /** The digit character for `d`. */
  function Digit(d: nat): char
    requires d < 10
  {
    "0123456789"[d]
  }

  predicate IsDigit(c: char) { '0' <= c <= '9' }

  /** The value of one digit character. */
  function DigitValue(c: char): (d: nat)
    requires IsDigit(c)
    ensures d < 10
  {
    c as int - '0' as int
  }

  /** A non-empty run of decimal digits. */
  predicate IsDigits(s: string) { |s| >= 1 && forall c <- s :: IsDigit(c) }

  /** The number a run of digits spells, most significant first. */
  function DigitsValue(s: string): nat
    requires forall c <- s :: IsDigit(c)
  {
    if s == [] then 0
    else DigitsValue(s[..|s| - 1]) * 10 + DigitValue(s[|s| - 1])
  }

  /** How a number is written inside a JavaScript template literal: decimal,
      without leading zeros. */
  function Decimal(n: nat): (s: string)
    ensures IsDigits(s)
    ensures |s| == 1 <==> n < 10
    ensures n < 100 ==> |s| <= 2
    ensures n < 1000 ==> |s| <= 3
  {
    if n < 10 then [Digit(n)] else Decimal(n / 10) + [Digit(n % 10)]
  }

  /** Reading the decimal text back yields the number; the text is digits
      only, and has no leading zero. */
  lemma {:induction false} DecimalRoundTrip(n: nat)
    ensures IsDigits(Decimal(n))
    ensures DigitsValue(Decimal(n)) == n
    ensures Decimal(n)[0] == '0' ==> n == 0
    decreases n
  {
    if n >= 10 {
      DecimalRoundTrip(n / 10);
      var s := Decimal(n);
      assert s[..|s| - 1] == Decimal(n / 10);
      assert s[0] == Decimal(n / 10)[0];
    }
  }
}
