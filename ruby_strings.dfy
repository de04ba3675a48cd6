/**
 * The Ruby `String` methods the collector relies on: `split` with a
 * one-character separator, `strip` and `downcase`.
 */
module RubyStrings {

  /** Every field between separators, empty ones included (`s.split(sep, -1)`). */
  function Fields(s: string, sep: char): (r: seq<string>)
    ensures |r| >= 1
    ensures forall i :: 0 <= i < |r| ==> sep !in r[i]
  {
    if s == [] then [""]
    else
      var rest := Fields(s[1..], sep);
      if s[0] == sep then [""] + rest
      else [[s[0]] + rest[0]] + rest[1..]
  }

  /** Glues fields back together with the separator between them. */
  function Join(fs: seq<string>, sep: char): string
    requires |fs| >= 1
  {
    if |fs| == 1 then fs[0] else fs[0] + [sep] + Join(fs[1..], sep)
  }

  /** Joining the fields of a string gives the string back. */
  lemma {:induction false} JoinFields(s: string, sep: char)
    ensures Join(Fields(s, sep), sep) == s
  {
    if s != [] {
      JoinFields(s[1..], sep);
      var rest := Fields(s[1..], sep);
      if s[0] != sep {
        var fs := Fields(s, sep);
        assert fs[1..] == rest[1..];
        if |rest| > 1 {
          assert Join(rest, sep) == rest[0] + [sep] + Join(rest[1..], sep);
        }
      }
    }
  }

  /** A string without the separator is a single field. */
  lemma {:induction false} FieldsOfPlain(s: string, sep: char)
    requires sep !in s
    ensures Fields(s, sep) == [s]
  {
    if s != [] {
      FieldsOfPlain(s[1..], sep);
      assert s[0] in s;
      assert [s[0]] + s[1..] == s;
    }
  }

  /** A separator after a plain prefix ends the first field there. */
  lemma {:induction false} FieldsOfSeparated(a: string, sep: char, b: string)
    requires sep !in a
    ensures Fields(a + [sep] + b, sep) == [a] + Fields(b, sep)
  {
    if a == [] {
      assert a + [sep] + b == [sep] + b;
    } else {
      var x := a + [sep] + b;
      assert x[0] == a[0] && a[0] in a;
      assert x[1..] == a[1..] + [sep] + b;
      FieldsOfSeparated(a[1..], sep, b);
      assert [a[0]] + a[1..] == a;
    }
  }

  /** Splitting the join of separator-free fields gives the fields back. */
  lemma {:induction false} FieldsJoin(fs: seq<string>, sep: char)
    requires |fs| >= 1
    requires forall i :: 0 <= i < |fs| ==> sep !in fs[i]
    ensures Fields(Join(fs, sep), sep) == fs
  {
    if |fs| == 1 {
      FieldsOfPlain(fs[0], sep);
    } else {
      FieldsJoin(fs[1..], sep);
      FieldsOfSeparated(fs[0], sep, Join(fs[1..], sep));
    }
  }

  /** Every field is empty exactly when the string holds nothing but separators. */
  lemma {:induction false} FieldsAllEmpty(s: string, sep: char)
    ensures (forall i :: 0 <= i < |Fields(s, sep)| ==> Fields(s, sep)[i] == "")
        <==> (forall k :: 0 <= k < |s| ==> s[k] == sep)
  {
    if s != [] {
      FieldsAllEmpty(s[1..], sep);
      var rest := Fields(s[1..], sep);
      if s[0] == sep {
        var fs := Fields(s, sep);
        assert fs == [""] + rest;
        assert (forall i :: 0 <= i < |fs| ==> fs[i] == "") <==> (forall i :: 0 <= i < |rest| ==> rest[i] == "") by {
          assert |fs| == |rest| + 1 && fs[0] == "";
          assert forall i :: 0 < i < |fs| ==> fs[i] == rest[i - 1];
          assert forall i :: 0 <= i < |rest| ==> rest[i] == fs[i + 1];
        }
        assert (forall k :: 0 <= k < |s| ==> s[k] == sep) <==> (forall k :: 0 <= k < |s[1..]| ==> s[1..][k] == sep) by {
          assert forall k :: 0 < k < |s| ==> s[k] == s[1..][k - 1];
        }
      } else {
        assert Fields(s, sep)[0] != "";
      }
    }
  }

  /** Ruby drops the empty fields at the end of a split. */
  function DropTrailingEmpty(fs: seq<string>): (r: seq<string>)
    ensures r <= fs
    ensures r == [] || r[|r| - 1] != ""
    ensures forall i :: |r| <= i < |fs| ==> fs[i] == ""
  {
    if fs == [] then []
    else if fs[|fs| - 1] == "" then DropTrailingEmpty(fs[..|fs| - 1])
    else fs
  }

  /**
   * `s.split(sep)` for a one-character separator other than a space: the
   * fields of `s` with the empty ones at the end dropped.
   */
  function Split(s: string, sep: char): (r: seq<string>)
    ensures forall i :: 0 <= i < |r| ==> sep !in r[i]
    ensures r == [] <==> forall k :: 0 <= k < |s| ==> s[k] == sep
    ensures r <= Fields(s, sep)
    ensures r == [] || r[|r| - 1] != ""
    ensures forall i :: |r| <= i < |Fields(s, sep)| ==> Fields(s, sep)[i] == ""
  {
    var fs := Fields(s, sep);
    FieldsAllEmpty(s, sep);
    var r := DropTrailingEmpty(fs);
    assert r == [] ==> forall i :: 0 <= i < |fs| ==> fs[i] == "";
    assert r != [] ==> r[|r| - 1] == fs[|r| - 1] != "";
    r
  }

  /** Joining one more field adds a separator and that field at the end. */
  lemma {:induction false} JoinSnoc(fs: seq<string>, x: string, sep: char)
    requires |fs| >= 1
    ensures Join(fs + [x], sep) == Join(fs, sep) + [sep] + x
  {
    if |fs| == 1 {
      assert (fs + [x])[1..] == [x];
    } else {
      assert (fs + [x])[1..] == fs[1..] + [x];
      JoinSnoc(fs[1..], x, sep);
    }
  }

  /** A separator at the end of a string adds an empty field, and `split` drops it. */
  lemma SplitTrailing(s: string, sep: char)
    ensures Fields(s + [sep], sep) == Fields(s, sep) + [""]
    ensures Split(s + [sep], sep) == Split(s, sep)
  {
    var fs := Fields(s, sep);
    JoinFields(s, sep);
    JoinSnoc(fs, "", sep);
    assert s + [sep] == Join(fs + [""], sep);
    FieldsJoin(fs + [""], sep);
    assert (fs + [""])[..|fs|] == fs;
  }

  /** `k` empty fields, the tail a run of `k` separators leaves. */
  function EmptyFields(k: nat): (r: seq<string>)
    ensures |r| == k && forall i :: 0 <= i < k ==> r[i] == ""
  {
    seq(k, i => "")
  }

  /**
   * Separator-free fields, the last one non-empty, followed by any number of
   * empty fields: `split` gives back the fields without the empty tail.
   */
  lemma {:induction false} SplitOfJoinTrailing(fs: seq<string>, k: nat, sep: char)
    requires |fs| >= 1 && fs[|fs| - 1] != ""
    requires forall i :: 0 <= i < |fs| ==> sep !in fs[i]
    ensures Split(Join(fs + EmptyFields(k), sep), sep) == fs
  {
    if k == 0 {
      assert fs + EmptyFields(0) == fs;
      FieldsJoin(fs, sep);
    } else {
      var init := fs + EmptyFields(k - 1);
      assert fs + EmptyFields(k) == init + [""];
      JoinSnoc(init, "", sep);
      SplitTrailing(Join(init, sep), sep);
      assert Join(init, sep) + [sep] + "" == Join(init, sep) + [sep];
      SplitOfJoinTrailing(fs, k - 1, sep);
    }
  }

  /** A string with no separator splits into itself, unless it is empty. */
  lemma SplitOfPlain(s: string, sep: char)
    requires sep !in s && s != ""
    ensures Split(s, sep) == [s]
  {
    FieldsOfPlain(s, sep);
  }

  /** Separator-free fields, the last one non-empty, survive a join and a split. */
  lemma SplitOfJoin(fs: seq<string>, sep: char)
    requires |fs| >= 1 && fs[|fs| - 1] != ""
    requires forall i :: 0 <= i < |fs| ==> sep !in fs[i]
    ensures Split(Join(fs, sep), sep) == fs
  {
    FieldsJoin(fs, sep);
  }

  /** The characters Ruby's `strip` removes: null, tab, line feed, vertical tab, form feed, carriage return, space. */
  predicate IsSpace(c: char) {
    c == '\0' || c == '\t' || c == '\n' || c == '\U{B}' || c == '\U{C}' || c == '\r' || c == ' '
  }

  /** `lstrip`: the longest suffix that does not start with whitespace. */
  function TrimStart(s: string): (r: string)
    ensures |r| <= |s| && r == s[|s| - |r|..]
    ensures forall i :: 0 <= i < |s| - |r| ==> IsSpace(s[i])
    ensures r == [] || !IsSpace(r[0])
  {
    if s != [] && IsSpace(s[0]) then TrimStart(s[1..]) else s
  }

  /** `rstrip`: the longest prefix that does not end with whitespace. */
  function TrimEnd(s: string): (r: string)
    ensures |r| <= |s| && r == s[..|r|]
    ensures forall i :: |r| <= i < |s| ==> IsSpace(s[i])
    ensures r == [] || !IsSpace(r[|r| - 1])
  {
    if s != [] && IsSpace(s[|s| - 1]) then TrimEnd(s[..|s| - 1]) else s
  }

  /** `strip`: whitespace removed from both ends. */
  function Strip(s: string): (r: string)
    ensures exists i, j :: 0 <= i <= j <= |s| && r == s[i..j] &&
                           (forall k :: 0 <= k < i ==> IsSpace(s[k])) && (forall k :: j <= k < |s| ==> IsSpace(s[k]))
    ensures r == [] || (!IsSpace(r[0]) && !IsSpace(r[|r| - 1]))
  {
    var t := TrimStart(s);
    var r := TrimEnd(t);
    PrefixOfSuffix(s, t, r);
    r
  }

  /** A prefix r of a suffix t of s is the slice of s that starts where t does. */
  lemma PrefixOfSuffix(s: string, t: string, r: string)
    requires |t| <= |s| && t == s[|s| - |t|..]
    requires |r| <= |t| && r == t[..|r|]
    ensures r == s[|s| - |t|..|s| - |t| + |r|]
    ensures forall k :: |s| - |t| + |r| <= k < |s| ==> s[k] == t[k - (|s| - |t|)]
  {
  }

  /** Stripping a word padded on both sides removes exactly the padding. */
  lemma StripPadded(pad: string, s: string, pad2: string)
    requires forall i :: 0 <= i < |pad| ==> IsSpace(pad[i])
    requires forall i :: 0 <= i < |pad2| ==> IsSpace(pad2[i])
    requires s != [] && !IsSpace(s[0]) && !IsSpace(s[|s| - 1])
    ensures Strip(pad + s + pad2) == s
  {
    assert pad + s + pad2 == pad + (s + pad2);
    TrimStartPadded(pad, s + pad2);
    TrimEndPadded(s, pad2);
  }

  lemma {:induction false} TrimStartPadded(pad: string, y: string)
    requires forall i :: 0 <= i < |pad| ==> IsSpace(pad[i])
    requires y != [] && !IsSpace(y[0])
    ensures TrimStart(pad + y) == y
  {
    if pad != [] {
      assert (pad + y)[0] == pad[0] && IsSpace(pad[0]);
      assert (pad + y)[1..] == pad[1..] + y;
      assert forall i :: 0 <= i < |pad[1..]| ==> pad[1..][i] == pad[i + 1];
      TrimStartPadded(pad[1..], y);
    } else {
      assert pad + y == y;
    }
  }

  lemma {:induction false} TrimEndPadded(y: string, pad: string)
    requires forall i :: 0 <= i < |pad| ==> IsSpace(pad[i])
    requires y != [] && !IsSpace(y[|y| - 1])
    ensures TrimEnd(y + pad) == y
  {
    if pad != [] {
      assert (y + pad)[|y + pad| - 1] == pad[|pad| - 1] && IsSpace(pad[|pad| - 1]);
      assert (y + pad)[..|y + pad| - 1] == y + pad[..|pad| - 1];
      TrimEndPadded(y, pad[..|pad| - 1]);
    } else {
      assert y + pad == y;
    }
  }

  /** Lower case for one character (ASCII letters). */
  function LowerChar(c: char): char {
    if 'A' <= c <= 'Z' then (c as int + 32) as char else c
  }

  /** `downcase`, on ASCII letters; the contract is its reference definition, character by character. */
  function Downcase(s: string): (r: string)
    ensures |r| == |s|
    ensures forall i :: 0 <= i < |s| ==> r[i] == LowerChar(s[i])
  {
    seq(|s|, i requires 0 <= i < |s| => LowerChar(s[i]))
  }
}
