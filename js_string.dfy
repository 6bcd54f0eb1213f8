/**
 * The handful of ECMAScript string operations the SMTP handler applies to a
 * received chunk: `trim`, `split` on a one-character separator, indexing the
 * resulting array (which can be `undefined`), `toUpperCase` and `endsWith`.
 * A JavaScript string is modelled as a `seq<char>`.
 *
 * The functions are plain definitions; what each one computes is stated by
 * the lemma that follows it, so that reasoning about a caller does not drag
 * every string fact along.
 */
module JsString {

  /** A JavaScript value that may be `undefined`, as `array[i]` is past the end. */
  datatype Option<T> = None | Some(value: T)

  /** The WhiteSpace and LineTerminator code points of ECMAScript, which `trim` removes. */
  predicate IsWhiteSpace(c: char) {
    || c == '\t' || c == '\n' || c == '\U{000B}' || c == '\U{000C}' || c == '\r'
    || c == ' ' || c == '\U{00A0}' || c == '\U{1680}'
    || ('\U{2000}' <= c <= '\U{200A}')
    || c == '\U{2028}' || c == '\U{2029}' || c == '\U{202F}' || c == '\U{205F}'
    || c == '\U{3000}' || c == '\U{FEFF}'
  }

  predicate AllWhiteSpace(s: string) {
    forall i :: 0 <= i < |s| ==> IsWhiteSpace(s[i])
  }

  // ---------------------------------------------------------------------------
  // trim
  // ---------------------------------------------------------------------------

  /** Removes leading white space. */
  function TrimStart(s: string): string {
    if s != [] && IsWhiteSpace(s[0]) then TrimStart(s[1..]) else s
  }

  /** TrimStart gives the longest suffix of `s` that does not start with white space. */
  lemma {:induction false} TrimStartSpec(s: string)
    ensures var r := TrimStart(s);
      && |r| <= |s| && r == s[|s| - |r|..]
      && (r == [] || !IsWhiteSpace(r[0]))
      && AllWhiteSpace(s[..|s| - |r|])
  {
    if s != [] && IsWhiteSpace(s[0]) {
      var s' := s[1..];
      TrimStartSpec(s');
      var r := TrimStart(s);
      assert r == TrimStart(s');
      assert s'[|s'| - |r|..] == s[|s| - |r|..];
      assert s[..|s| - |r|] == [s[0]] + s'[..|s'| - |r|];
    }
  }

  /** Removes trailing white space. */
  function TrimEnd(s: string): string {
    if s != [] && IsWhiteSpace(s[|s| - 1]) then TrimEnd(s[..|s| - 1]) else s
  }

  /** TrimEnd gives the longest prefix of `s` that does not end with white space. */
  lemma {:induction false} TrimEndSpec(s: string)
    ensures var r := TrimEnd(s);
      && |r| <= |s| && r == s[..|r|]
      && (r == [] || !IsWhiteSpace(r[|r| - 1]))
      && AllWhiteSpace(s[|r|..])
  {
    if s != [] && IsWhiteSpace(s[|s| - 1]) {
      var s' := s[..|s| - 1];
      TrimEndSpec(s');
      var r := TrimEnd(s);
      assert r == TrimEnd(s');
      assert s'[..|r|] == s[..|r|];
      assert s[|r|..] == s'[|r|..] + [s[|s| - 1]];
    }
  }

  /** `String.prototype.trim`. */
  function Trim(s: string): string {
    TrimStart(TrimEnd(s))
  }

  /** Trimming gives a part of the text that neither starts nor ends with white space. */
  lemma TrimSpec(s: string)
    ensures |Trim(s)| <= |s|
    ensures Trim(s) == [] || (!IsWhiteSpace(Trim(s)[0]) && !IsWhiteSpace(Trim(s)[|Trim(s)| - 1]))
  {
    var e := TrimEnd(s);
    TrimEndSpec(s);
    TrimStartSpec(e);
    var r := Trim(s);
    assert r != [] ==> r[|r| - 1] == e[|e| - 1];
  }

  /** Trimming leaves nothing exactly when the text is all white space. */
  lemma TrimEmpty(s: string)
    ensures Trim(s) == [] <==> AllWhiteSpace(s)
  {
    var e := TrimEnd(s);
    TrimEndSpec(s);
    TrimStartSpec(e);
    if Trim(s) == [] {
      assert AllWhiteSpace(e[..|e|]);
      assert s == e + s[|e|..];
      forall i | 0 <= i < |s| ensures IsWhiteSpace(s[i]) {
        if i >= |e| { assert s[i] == s[|e|..][i - |e|]; }
      }
    } else {
      var r := Trim(s);
      assert r[0] == s[|e| - |r|];
    }
  }

  /**
   * `trim` removes exactly the white space around the text: whatever white
   * space surrounds a string whose ends are not white space, trimming gives
   * that string back.
   */
  lemma TrimPadded(pre: string, x: string, post: string)
    requires AllWhiteSpace(pre) && AllWhiteSpace(post)
    requires x == [] || (!IsWhiteSpace(x[0]) && !IsWhiteSpace(x[|x| - 1]))
    ensures Trim(pre + x + post) == x
  {
    TrimEndPadded(pre + x, post);
    if x == [] {
      assert pre + x == pre;
      TrimEndPadded([], pre);
      assert [] + pre == pre;
    } else {
      assert TrimEnd(pre + x) == pre + x by {
        assert (pre + x)[|pre + x| - 1] == x[|x| - 1];
      }
      TrimStartPadded(pre, x);
    }
  }

  lemma {:induction false} TrimEndPadded(x: string, post: string)
    requires AllWhiteSpace(post)
    ensures TrimEnd(x + post) == TrimEnd(x)
    decreases |post|
  {
    if post != [] {
      var shorter := post[..|post| - 1];
      assert (x + post)[..|x + post| - 1] == x + shorter;
      TrimEndPadded(x, shorter);
    } else {
      assert x + post == x;
    }
  }

  lemma {:induction false} TrimStartPadded(pre: string, x: string)
    requires AllWhiteSpace(pre)
    requires x == [] || !IsWhiteSpace(x[0])
    ensures TrimStart(pre + x) == x
    decreases |pre|
  {
    if pre == [] {
      assert pre + x == x;
    } else {
      assert (pre + x)[1..] == pre[1..] + x;
      TrimStartPadded(pre[1..], x);
    }
  }

  /** Trimming twice is trimming once. */
  lemma TrimIdempotent(s: string)
    ensures Trim(Trim(s)) == Trim(s)
  {
    TrimSpec(s);
    TrimPadded([], Trim(s), []);
    assert [] + Trim(s) + [] == Trim(s);
  }

  // ---------------------------------------------------------------------------
  // split and join
  // ---------------------------------------------------------------------------

  /** `Array.prototype.join(sep)`, the inverse of `split`. */
  function Join(parts: seq<string>, sep: char): string {
    if |parts| == 0 then []
    else if |parts| == 1 then parts[0]
    else parts[0] + [sep] + Join(parts[1..], sep)
  }

  /** `String.prototype.split(sep)` for a one-character separator. */
  function Split(s: string, sep: char): (r: seq<string>)
    ensures |r| >= 1
  {
    if s == [] then [[]]
    else
      var rest := Split(s[1..], sep);
      if s[0] == sep then [[]] + rest
      else [[s[0]] + rest[0]] + rest[1..]
  }

  /** The number of occurrences of `c` in `s`. */
  function Count(s: string, c: char): nat {
    if s == [] then 0 else (if s[0] == c then 1 else 0) + Count(s[1..], c)
  }

  /** Split gives the pieces between separators: one more than there are separators, none holding one. */
  lemma {:induction false} SplitSpec(s: string, sep: char)
    ensures |Split(s, sep)| == Count(s, sep) + 1
    ensures forall i :: 0 <= i < |Split(s, sep)| ==> sep !in Split(s, sep)[i]
  {
    if s != [] {
      SplitSpec(s[1..], sep);
      var rest := Split(s[1..], sep);
      var r := Split(s, sep);
      if s[0] != sep {
        assert r[0] == [s[0]] + rest[0];
        forall i | 1 <= i < |r| ensures r[i] == rest[i] { }
      } else {
        forall i | 1 <= i < |r| ensures r[i] == rest[i - 1] { }
      }
    }
  }

  /** Joining the pieces of a split with the same separator gives the string back. */
  lemma {:induction false} JoinSplit(s: string, sep: char)
    ensures Join(Split(s, sep), sep) == s
  {
    if s != [] {
      var rest := Split(s[1..], sep);
      JoinSplit(s[1..], sep);
      if s[0] == sep {
        assert ([[]] + rest)[1..] == rest;
      } else {
        var r := [[s[0]] + rest[0]] + rest[1..];
        if |rest| == 1 {
          assert r == [[s[0]] + rest[0]];
        } else {
          assert r[1..] == rest[1..];
          assert Join(rest, sep) == rest[0] + [sep] + Join(rest[1..], sep);
        }
      }
    }
  }

  /** Splitting a join of separator-free pieces gives the pieces back. */
  lemma {:induction false} SplitJoin(parts: seq<string>, sep: char)
    requires |parts| >= 1
    requires forall i :: 0 <= i < |parts| ==> sep !in parts[i]
    ensures Split(Join(parts, sep), sep) == parts
    decreases |parts|, |parts[0]|
  {
    var p := parts[0];
    if p == [] {
      if |parts| > 1 {
        var tail := Join(parts[1..], sep);
        assert Join(parts, sep) == [sep] + tail;
        assert ([sep] + tail)[1..] == tail;
        SplitJoin(parts[1..], sep);
        assert parts == [[]] + parts[1..];
      }
    } else {
      var shorter := [p[1..]] + parts[1..];
      assert shorter[1..] == parts[1..];
      assert forall i :: 1 <= i < |shorter| ==> shorter[i] == parts[i];
      assert sep !in p[1..] by {
        forall k | 0 <= k < |p[1..]| ensures p[1..][k] != sep { assert p[1..][k] == p[k + 1]; }
      }
      SplitJoin(shorter, sep);
      var j := Join(parts, sep);
      assert j == [p[0]] + Join(shorter, sep);
      assert j[1..] == Join(shorter, sep);
      assert j[0] == p[0] && p[0] != sep;
      assert p == [p[0]] + p[1..];
      assert parts == [[p[0]] + p[1..]] + parts[1..];
    }
  }

  /** `s.split(sep)[i]`: the i-th piece, or `undefined` past the last one. */
  function Field(s: string, sep: char, i: nat): Option<string> {
    var pieces := Split(s, sep);
    if i < |pieces| then Some(pieces[i]) else None
  }

  /** `s.split(sep)[0]`, which is always defined. */
  function FirstField(s: string, sep: char): string {
    Split(s, sep)[0]
  }

  /** The i-th field of a joined string is the i-th piece, or `undefined` past the last. */
  lemma FieldOfJoin(parts: seq<string>, sep: char, i: nat)
    requires |parts| >= 1
    requires forall k :: 0 <= k < |parts| ==> sep !in parts[k]
    ensures Field(Join(parts, sep), sep, i) == if i < |parts| then Some(parts[i]) else None
    ensures FirstField(Join(parts, sep), sep) == parts[0]
  {
    SplitJoin(parts, sep);
  }

  // ---------------------------------------------------------------------------
  // toUpperCase, endsWith
  // ---------------------------------------------------------------------------

  /** Upper-cases an ASCII letter and leaves every other character alone. */
  function UpperChar(c: char): char {
    if 'a' <= c <= 'z' then (c as int - 32) as char else c
  }

  /** `String.prototype.toUpperCase`, restricted to ASCII letters. */
  function ToUpperAscii(s: string): (r: string)
    ensures |r| == |s|
  {
    if s == [] then [] else [UpperChar(s[0])] + ToUpperAscii(s[1..])
  }

  /** Upper-casing maps each character on its own. */
  lemma {:induction false} ToUpperAsciiSpec(s: string)
    ensures forall i :: 0 <= i < |s| ==> ToUpperAscii(s)[i] == UpperChar(s[i])
  {
    if s != [] {
      ToUpperAsciiSpec(s[1..]);
      forall i | 1 <= i < |s| ensures ToUpperAscii(s)[i] == UpperChar(s[i]) {
        assert ToUpperAscii(s)[i] == ToUpperAscii(s[1..])[i - 1];
      }
    }
  }

  /**
   * Upper-casing leaves no lower-case ASCII letter behind, and so applying
   * it a second time changes nothing.
   */
  lemma ToUpperAsciiIdempotent(s: string)
    ensures forall i :: 0 <= i < |s| ==> !('a' <= ToUpperAscii(s)[i] <= 'z')
    ensures ToUpperAscii(ToUpperAscii(s)) == ToUpperAscii(s)
  {
    var u := ToUpperAscii(s);
    ToUpperAsciiSpec(s);
    ToUpperAsciiSpec(u);
    assert forall i :: 0 <= i < |s| ==> !('a' <= u[i] <= 'z');
  }

  /**
   * `trim` only looks at the start of a text that is not all white space:
   * whatever follows that text is kept as it is.
   */
  lemma {:induction false} TrimStartAppend(x: string, y: string)
    requires !AllWhiteSpace(x)
    ensures TrimStart(x + y) == TrimStart(x) + y
  {
    if IsWhiteSpace(x[0]) {
      assert (x + y)[1..] == x[1..] + y;
      assert !AllWhiteSpace(x[1..]) by {
        var k :| 0 <= k < |x| && !IsWhiteSpace(x[k]);
        assert x[1..][k - 1] == x[k];
      }
      TrimStartAppend(x[1..], y);
    }
  }

  /** Leading white space disappears entirely under TrimStart. */
  lemma {:induction false} TrimStartWhitePrefix(x: string, y: string)
    requires AllWhiteSpace(x)
    ensures TrimStart(x + y) == TrimStart(y)
    decreases |x|
  {
    if x == [] {
      assert x + y == y;
    } else {
      assert (x + y)[1..] == x[1..] + y;
      TrimStartWhitePrefix(x[1..], y);
    }
  }

  /**
   * Upper-casing never creates or removes a space, so the first space-separated
   * field of the upper-cased text is the upper-cased first field.
   */
  lemma {:induction false} FirstFieldOfUpper(s: string)
    ensures FirstField(ToUpperAscii(s), ' ') == ToUpperAscii(FirstField(s, ' '))
  {
    if s != [] {
      var u := ToUpperAscii(s);
      assert u[1..] == ToUpperAscii(s[1..]);
      FirstFieldOfUpper(s[1..]);
      if s[0] != ' ' {
        assert u[0] != ' ';
        var h := FirstField(s[1..], ' ');
        assert FirstField(s, ' ') == [s[0]] + h;
        assert ToUpperAscii([s[0]] + h)[1..] == ToUpperAscii(h);
      }
    }
  }

  /** `String.prototype.endsWith(suffix)`. */
  function EndsWith(s: string, suffix: string): bool {
    if suffix == [] then true
    else if s == [] then false
    else
      s[|s| - 1] == suffix[|suffix| - 1]
      && EndsWith(s[..|s| - 1], suffix[..|suffix| - 1])
  }

  /** `s` ends with `suffix` exactly when its last |suffix| characters are `suffix`. */
  lemma {:induction false} EndsWithSpec(s: string, suffix: string)
    ensures EndsWith(s, suffix) <==> |suffix| <= |s| && s[|s| - |suffix|..] == suffix
  {
    if suffix != [] && s != [] {
      var s', x' := s[..|s| - 1], suffix[..|suffix| - 1];
      EndsWithSpec(s', x');
      if |suffix| <= |s| {
        assert s[|s| - |suffix|..] == s'[|s'| - |x'|..] + [s[|s| - 1]];
        assert suffix == x' + [suffix[|suffix| - 1]];
      }
    }
  }
}
