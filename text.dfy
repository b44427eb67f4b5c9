/** Python's `str.split(sep)` with a one-character separator, `str.strip()`
    with no argument, and the data-URL prefix rule built from them. */
module Text {

  datatype Option<T> = None | Some(value: T)

  /** The characters for which Python's `str.isspace()` is true. */
  predicate IsSpace(c: char) {
    ('\t' <= c <= '\r') || ('\U{1C}' <= c <= '\U{1F}') || c == ' '
    || c == '\U{85}' || c == '\U{A0}' || c == '\U{1680}'
    || ('\U{2000}' <= c <= '\U{200A}') || c == '\U{2028}' || c == '\U{2029}'
    || c == '\U{202F}' || c == '\U{205F}' || c == '\U{3000}'
  }

  predicate AllSpace(s: string) {
    forall k :: 0 <= k < |s| ==> IsSpace(s[k])
  }

  /** The number of whitespace characters `s.lstrip()` removes. */
  function LeadingSpace(s: string): (n: nat)
    ensures n <= |s|
    ensures forall k :: 0 <= k < n ==> IsSpace(s[k])
    ensures n < |s| ==> !IsSpace(s[n])
  {
    if |s| > 0 && IsSpace(s[0]) then
      var n := 1 + LeadingSpace(s[1..]);
      assert forall k :: 1 <= k < n ==> s[k] == s[1..][k - 1];
      n
    else 0
  }

  /** The number of whitespace characters `s.rstrip()` removes. */
  function TrailingSpace(s: string): (n: nat)
    ensures n <= |s|
    ensures forall k :: |s| - n <= k < |s| ==> IsSpace(s[k])
    ensures n < |s| ==> !IsSpace(s[|s| - n - 1])
  {
    if |s| > 0 && IsSpace(s[|s| - 1]) then
      var p := s[..|s| - 1];
      var n := 1 + TrailingSpace(p);
      assert forall k :: |s| - n <= k < |s| - 1 ==> s[k] == p[k];
      n
    else 0
  }

  /** `s.strip()`: `s` with leading and trailing whitespace removed. It is
      the piece of `s` from its first to its last non-whitespace character,
      and empty when there is none. */
  function Strip(s: string): (r: string)
    ensures r == [] || (!IsSpace(r[0]) && !IsSpace(r[|r| - 1]))
  {
    var a := LeadingSpace(s);
    if a == |s| then ""
    else
      var b := |s| - TrailingSpace(s);
      assert a < b by {
        assert !IsSpace(s[a]);
      }
      s[a..b]
  }

  /** What `strip` removes is whitespace on both sides, and the rest is kept
      as one contiguous piece of `s`. */
  lemma StripIsInfix(s: string)
    ensures var r := Strip(s); var a := LeadingSpace(s);
      a + |r| <= |s| && r == s[a..a + |r|]
      && (forall k :: 0 <= k < a ==> IsSpace(s[k]))
      && (forall k :: a + |r| <= k < |s| ==> IsSpace(s[k]))
  {
  }

  /** `s.strip()` is empty exactly when every character of `s` is whitespace;
      this is the request's blank-text test. */
  lemma StripEmptyIffAllSpace(s: string)
    ensures Strip(s) == [] <==> AllSpace(s)
  {
    var a := LeadingSpace(s);
    if a < |s| {
      assert !IsSpace(s[a]);
    }
  }

  /** `s.split(sep)`: the fields between occurrences of `sep`; there is always
      one more field than there are separators. */
  function Split(s: string, sep: char): (r: seq<string>)
    ensures |r| >= 1
    ensures forall k :: 0 <= k < |r| ==> sep !in r[k]
    ensures |r| == 1 <==> sep !in s
    ensures |r| == 1 ==> r[0] == s
  {
    if s == [] then [""]
    else
      var rest := Split(s[1..], sep);
      if s[0] == sep then [""] + rest
      else
        assert sep in s <==> sep in s[1..] by {
          assert s == [s[0]] + s[1..];
        }
        [[s[0]] + rest[0]] + rest[1..]
  }

  /** `sep.join(parts)`, the inverse of `Split`. */
  function Join(parts: seq<string>, sep: char): string
    requires |parts| >= 1
  {
    if |parts| == 1 then parts[0] else parts[0] + [sep] + Join(parts[1..], sep)
  }

  lemma JoinCons(p: string, rest: seq<string>, sep: char)
    requires |rest| >= 1
    ensures Join([p] + rest, sep) == p + [sep] + Join(rest, sep)
  {
    assert ([p] + rest)[1..] == rest;
  }

  /** A string with no whitespace at either end is its own `strip()`. */
  lemma StripKeeps(s: string)
    requires s == [] || (!IsSpace(s[0]) && !IsSpace(s[|s| - 1]))
    ensures Strip(s) == s
  {
    if s != [] {
      assert LeadingSpace(s) == 0;
      assert TrailingSpace(s) == 0;
      assert s[0..|s|] == s;
    }
  }

  lemma {:induction false} JoinSplit(s: string, sep: char)
    ensures Join(Split(s, sep), sep) == s
  {
    if s != [] {
      JoinSplit(s[1..], sep);
      var rest := Split(s[1..], sep);
      if s[0] != sep {
        var r := Split(s, sep);
        assert r[1..] == rest[1..];
        if |rest| == 1 {
          assert Join(r, sep) == [s[0]] + rest[0];
        } else {
          assert Join(r, sep) == [s[0]] + rest[0] + [sep] + Join(rest[1..], sep);
        }
      }
    }
  }

  /** Splitting at a prefix with no separator in it. */
  lemma {:induction false} SplitAfterPlain(a: string, b: string, sep: char)
    requires sep !in a
    ensures var sb := Split(b, sep);
      Split(a + b, sep) == [a + sb[0]] + sb[1..]
  {
    if a != [] {
      var sb := Split(b, sep);
      var ab := a + b;
      assert ab[1..] == a[1..] + b;
      assert ab[0] == a[0] && a[0] != sep;
      SplitAfterPlain(a[1..], b, sep);
      var rest := Split(ab[1..], sep);
      assert rest == [a[1..] + sb[0]] + sb[1..];
      assert Split(ab, sep) == [[a[0]] + rest[0]] + rest[1..];
      assert [a[0]] + (a[1..] + sb[0]) == a + sb[0];
      assert rest[1..] == sb[1..];
    } else {
      var sb := Split(b, sep);
      assert a + b == b && a + sb[0] == sb[0];
      assert sb == [sb[0]] + sb[1..];
    }
  }

  lemma {:induction false} SplitJoin(parts: seq<string>, sep: char)
    requires |parts| >= 1
    requires forall k :: 0 <= k < |parts| ==> sep !in parts[k]
    ensures Split(Join(parts, sep), sep) == parts
  {
    if |parts| == 1 {
    } else {
      SplitJoin(parts[1..], sep);
      var tail := [sep] + Join(parts[1..], sep);
      assert Join(parts, sep) == parts[0] + tail;
      assert tail[1..] == Join(parts[1..], sep);
      assert Split(tail, sep) == [""] + parts[1..];
      SplitAfterPlain(parts[0], tail, sep);
      assert parts[0] + "" == parts[0];
    }
  }

  /** `image_data.split(',')[1]`: the text between the first and second comma
      of a data URL; `None` where Python raises `IndexError` (no comma). */
  function StripDataUrlPrefix(s: string): (r: Option<string>)
    ensures r.None? <==> ',' !in s
    ensures r.Some? ==> ',' !in r.value
  {
    var fields := Split(s, ',');
    if |fields| >= 2 then Some(fields[1]) else None
  }

  /** The payload starts right after the first comma and runs up to the next
      comma or the end of the string. */
  lemma DataUrlPayloadPosition(s: string)
    requires ',' in s
    ensures var p := |Split(s, ',')[0]|; var v := StripDataUrlPrefix(s).value;
      p + 1 + |v| <= |s| && s[p] == ',' && ',' !in s[..p]
      && s[p + 1..p + 1 + |v|] == v
      && (p + 1 + |v| == |s| || s[p + 1 + |v|] == ',')
  {
    var f := Split(s, ',');
    JoinSplit(s, ',');
    var rest := Join(f[1..], ',');
    assert s == f[0] + [','] + rest;
    var v := f[1];
    if |f| == 2 {
      assert rest == v;
    } else {
      assert rest == v + [','] + Join(f[2..], ',');
    }
    assert s[..|f[0]|] == f[0];
    assert s[|f[0]| + 1..] == rest;
  }

  lemma DataUrlExample()
    ensures StripDataUrlPrefix("data:image/png;base64,QUJD") == Some("QUJD")
  {
    var parts := ["data:image/png;base64", "QUJD"];
    SplitJoin(parts, ',');
    JoinCons("data:image/png;base64", ["QUJD"], ',');
    assert Join(parts, ',') == "data:image/png;base64,QUJD";
  }
}
