/**
 * The `categories` parameter of the points endpoints is a comma-separated
 * list of category ids. Both the discovery query and the creation request
 * turn it into numbers the same way: split on ",", trim each token, and
 * convert it with JavaScript's `Number`.
 */
module CategoryParsing {

  /** The result of JavaScript's `Number(token)` as far as this model follows it. */
  datatype Num =
    | Int(value: int)
      /** NaN, a fraction, or a value written in a notation the model does not
          interpret (hexadecimal, exponent, "Infinity"); never equal to an id. */
    | NotInteger(token: string)

  // ---------------------------------------------------------------------------
  // String.prototype.split(",")
  // ---------------------------------------------------------------------------

  /** The tokens between commas; an input without commas is a single token. */
  function Split(s: string): (parts: seq<string>)
    ensures |parts| >= 1
  {
    if s == [] then [""]
    else
      var rest := Split(s[1..]);
      if s[0] == ',' then [""] + rest
      else [[s[0]] + rest[0]] + rest[1..]
  }

  /** Array.prototype.join(",") — also what `String(array)` yields. */
  function Join(parts: seq<string>): string
  {
    if parts == [] then ""
    else if |parts| == 1 then parts[0]
    else parts[0] + "," + Join(parts[1..])
  }

  function CountCommas(s: string): nat
  {
    if s == [] then 0 else (if s[0] == ',' then 1 else 0) + CountCommas(s[1..])
  }

  /** No token produced by Split contains a comma. */
  lemma {:induction false} SplitTokensHaveNoComma(s: string)
    ensures forall i :: 0 <= i < |Split(s)| ==> ',' !in Split(s)[i]
  {
    if s != [] {
      SplitTokensHaveNoComma(s[1..]);
      var rest := Split(s[1..]);
      if s[0] != ',' {
        assert Split(s)[0] == [s[0]] + rest[0];
        forall i | 0 <= i < |Split(s)| ensures ',' !in Split(s)[i] {
          if i > 0 { assert Split(s)[i] == rest[i]; }
        }
      }
    }
  }

  /** There is one token more than there are commas. */
  lemma {:induction false} SplitCount(s: string)
    ensures |Split(s)| == CountCommas(s) + 1
  {
    if s != [] {
      SplitCount(s[1..]);
    }
  }

  /** Joining the tokens with commas gives back the input. */
  lemma {:induction false} JoinSplit(s: string)
    ensures Join(Split(s)) == s
  {
    if s != [] {
      JoinSplit(s[1..]);
      var rest := Split(s[1..]);
      if s[0] == ',' {
        assert Split(s) == [""] + rest;
        assert Join(Split(s)) == "" + "," + Join(rest);
      } else {
        var parts := Split(s);
        assert parts[1..] == rest[1..];
        if |rest| == 1 {
          assert Join(parts) == [s[0]] + rest[0];
        } else {
          assert Join(rest) == rest[0] + "," + Join(rest[1..]);
          assert Join(parts) == ([s[0]] + rest[0]) + "," + Join(rest[1..]);
        }
      }
    }
  }

  /** Splitting a comma-free prefix glued to the rest extends the first token. */
  lemma {:induction false} SplitCommaFreePrefix(a: string, b: string)
    requires ',' !in a
    ensures Split(a + b) == [a + Split(b)[0]] + Split(b)[1..]
  {
    if a != [] {
      assert (a + b)[1..] == a[1..] + b;
      SplitCommaFreePrefix(a[1..], b);
      assert [a[0]] + (a[1..] + Split(b)[0]) == a + Split(b)[0];
    } else {
      assert a + b == b;
      assert a + Split(b)[0] == Split(b)[0];
      assert Split(b) == [Split(b)[0]] + Split(b)[1..];
    }
  }

  /** Splitting comma-free tokens joined with commas gives back the tokens. */
  lemma {:induction false} SplitJoin(parts: seq<string>)
    requires |parts| >= 1
    requires forall i :: 0 <= i < |parts| ==> ',' !in parts[i]
    ensures Split(Join(parts)) == parts
  {
    if |parts| == 1 {
      SplitCommaFreePrefix(parts[0], "");
      assert parts[0] + "" == parts[0];
    } else {
      SplitJoin(parts[1..]);
      var tail := Join(parts[1..]);
      assert Join(parts) == parts[0] + ("," + tail);
      SplitCommaFreePrefix(parts[0], "," + tail);
      assert ("," + tail)[1..] == tail;
      assert Split("," + tail) == [""] + parts[1..];
      assert parts[0] + "" == parts[0];
      assert [parts[0] + ""] + parts[1..] == parts;
    }
  }

  // ---------------------------------------------------------------------------
  // String.prototype.trim()
  // ---------------------------------------------------------------------------

  /** WhiteSpace and LineTerminator code points of ECMAScript: what `trim` removes. */
  predicate IsTrimmable(c: char)
  {
    || c == '\t' || c == '\n' || c == '\U{B}' || c == '\U{C}' || c == '\r' || c == ' '
    || c == '\U{A0}' || c == '\U{1680}' || ('\U{2000}' <= c <= '\U{200A}')
    || c == '\U{2028}' || c == '\U{2029}' || c == '\U{202F}' || c == '\U{205F}'
    || c == '\U{3000}' || c == '\U{FEFF}'
  }

  predicate AllTrimmable(s: string)
  {
    forall i :: 0 <= i < |s| ==> IsTrimmable(s[i])
  }

  /** Neither end of `s` is a trimmable character. */
  predicate IsTrimmed(s: string)
  {
    s == [] || (!IsTrimmable(s[0]) && !IsTrimmable(s[|s| - 1]))
  }

  function TrimStart(s: string): (r: string)
    ensures |r| <= |s| && r == s[|s| - |r|..]
    ensures AllTrimmable(s[..|s| - |r|])
    ensures r == [] || !IsTrimmable(r[0])
  {
    if s != [] && IsTrimmable(s[0]) then
      var r := TrimStart(s[1..]);
      assert s[..|s| - |r|] == [s[0]] + s[1..][..|s| - 1 - |r|];
      r
    else s
  }

  function TrimEnd(s: string): (r: string)
    ensures |r| <= |s| && r == s[..|r|]
    ensures AllTrimmable(s[|r|..])
    ensures r == [] || !IsTrimmable(r[|r| - 1])
  {
    if s != [] && IsTrimmable(s[|s| - 1]) then
      var r := TrimEnd(s[..|s| - 1]);
      assert s[|r|..] == s[..|s| - 1][|r|..] + [s[|s| - 1]];
      r
    else s
  }

  /** `trim`. */
  function Trim(s: string): string
  {
    TrimEnd(TrimStart(s))
  }

  /** Trimming gives the middle of `s`, cutting only trimmable characters from
      either end, and leaves none at either end. */
  lemma TrimShape(s: string)
    ensures IsTrimmed(Trim(s))
    ensures exists i, j :: 0 <= i <= j <= |s| && Trim(s) == s[i..j]
                           && AllTrimmable(s[..i]) && AllTrimmable(s[j..])
  {
    var t := TrimStart(s);
    var r := TrimEnd(t);
    var i := |s| - |t|;
    assert r == s[i..i + |r|];
    assert s[i + |r|..] == t[|r|..];
  }

  lemma {:induction false} TrimStartOfTrimmedCore(pad: string, t: string)
    requires AllTrimmable(pad) && IsTrimmed(t)
    ensures TrimStart(pad + t) == t
  {
    if pad != [] {
      assert (pad + t)[1..] == pad[1..] + t;
      TrimStartOfTrimmedCore(pad[1..], t);
    } else {
      assert pad + t == t;
    }
  }

  lemma {:induction false} TrimEndOfTrimmedCore(t: string, pad: string)
    requires AllTrimmable(pad) && IsTrimmed(t)
    ensures TrimEnd(t + pad) == t
  {
    if pad != [] {
      assert (t + pad)[..|t + pad| - 1] == t + pad[..|pad| - 1];
      TrimEndOfTrimmedCore(t, pad[..|pad| - 1]);
    } else {
      assert t + pad == t;
    }
  }

  /** Trimming removes exactly the surrounding white space: a core that does not
      itself start or end with white space is recovered from any padding. */
  lemma TrimPadded(left: string, t: string, right: string)
    requires AllTrimmable(left) && AllTrimmable(right) && IsTrimmed(t)
    ensures Trim(left + t + right) == t
  {
    assert left + t + right == left + (t + right);
    if t == [] {
      assert left + t + right == left + right;
      TrimStartOfTrimmedCore(left + right, []);
      assert left + right + [] == left + right;
    } else {
      TrimStartOfLeading(left, t + right);
    }
    TrimEndOfTrimmedCore(t, right);
  }

  lemma {:induction false} TrimStartOfLeading(pad: string, u: string)
    requires AllTrimmable(pad) && u != [] && !IsTrimmable(u[0])
    ensures TrimStart(pad + u) == u
  {
    if pad != [] {
      assert (pad + u)[1..] == pad[1..] + u;
      TrimStartOfLeading(pad[1..], u);
    } else {
      assert pad + u == u;
    }
  }

  /** A string without surrounding white space is left as it is. */
  lemma TrimOfTrimmed(t: string)
    requires IsTrimmed(t)
    ensures Trim(t) == t
  {
    TrimPadded([], t, []);
    assert [] + t + [] == t;
  }

  /** Trimming is idempotent. */
  lemma TrimIdempotent(s: string)
    ensures Trim(Trim(s)) == Trim(s)
  {
    TrimShape(s);
    TrimOfTrimmed(Trim(s));
  }

  // ---------------------------------------------------------------------------
  // Number(token)
  // ---------------------------------------------------------------------------

  predicate IsDigit(c: char) { '0' <= c <= '9' }

  predicate IsDigits(s: string)
  {
    |s| >= 1 && forall i :: 0 <= i < |s| ==> IsDigit(s[i])
  }

  /** The value of a run of decimal digits, most significant first. */
  function DigitsValue(s: string): (n: nat)
    requires IsDigits(s)
    decreases |s|
  {
    var last := (s[|s| - 1] as int) - ('0' as int);
    if |s| == 1 then last else DigitsValue(s[..|s| - 1]) * 10 + last
  }

  /** `Number` on a trimmed token: the empty string is 0, an optionally signed
      run of decimal digits is its value, anything else is not an integer. */
  function ToNumber(t: string): Num
  {
    if t == [] then Int(0)
    else if IsDigits(t) then Int(DigitsValue(t))
    else if t[0] == '-' && IsDigits(t[1..]) then Int(-(DigitsValue(t[1..]) as int))
    else if t[0] == '+' && IsDigits(t[1..]) then Int(DigitsValue(t[1..]))
    else NotInteger(t)
  }

  /** Decimal notation of a natural number (what `String(n)` gives). */
  function Decimal(n: nat): (s: string)
    ensures IsDigits(s)
  {
    var d := [(('0' as int) + n % 10) as char];
    if n < 10 then d else Decimal(n / 10) + d
  }

  /** Number and decimal notation are inverse on naturals. */
  lemma {:induction false} DecimalValue(n: nat)
    ensures DigitsValue(Decimal(n)) == n
  {
    if n >= 10 {
      DecimalValue(n / 10);
      var s := Decimal(n);
      assert s[..|s| - 1] == Decimal(n / 10);
    }
  }

  lemma DecimalIsTrimmed(n: nat)
    ensures IsTrimmed(Decimal(n))
  {
    var s := Decimal(n);
    assert IsDigit(s[0]) && IsDigit(s[|s| - 1]);
  }

  lemma ToNumberDecimal(n: nat)
    ensures ToNumber(Trim(Decimal(n))) == Int(n)
  {
    DecimalIsTrimmed(n);
    TrimPadded([], Decimal(n), []);
    assert [] + Decimal(n) + [] == Decimal(n);
    DecimalValue(n);
  }

  // ---------------------------------------------------------------------------
  // categories.split(',').map(item => Number(item.trim()))
  // ---------------------------------------------------------------------------

  /** `.map(item => Number(item.trim()))`. */
  function ConvertTokens(tokens: seq<string>): seq<Num>
  {
    seq(|tokens|, i requires 0 <= i < |tokens| => ToNumber(Trim(tokens[i])))
  }

  /** The category list as pointsController parses it, at index and at create. */
  function ParseCategories(text: string): (ids: seq<Num>)
    ensures |ids| >= 1
  {
    ConvertTokens(Split(text))
  }

  /** One number per comma-separated token, in order, each the token's value after trimming. */
  lemma ParseCategoriesTokens(text: string)
    ensures |ParseCategories(text)| == CountCommas(text) + 1
    ensures forall i :: 0 <= i < |ParseCategories(text)| ==>
              ParseCategories(text)[i] == ToNumber(Trim(Split(text)[i]))
  {
    SplitCount(text);
  }

  /** A list without commas is a single token. */
  lemma ParseSingleToken(t: string)
    requires ',' !in t
    ensures ParseCategories(t) == [ToNumber(Trim(t))]
  {
    assert Join([t]) == t;
    SplitJoin([t]);
    assert Split(t) == [t];
  }

  /** A token that starts with neither a sign nor a digit is not a number. */
  lemma ToNumberWord(t: string)
    requires t != [] && !IsDigit(t[0]) && t[0] != '-' && t[0] != '+'
    ensures ToNumber(t) == NotInteger(t)
  {
    assert !IsDigits(t);
  }

  /** A single token that is not a number parses to one non-integer. */
  lemma ParseWord(t: string)
    requires t != [] && ',' !in t && IsTrimmed(t)
    requires !IsDigit(t[0]) && t[0] != '-' && t[0] != '+'
    ensures ParseCategories(t) == [NotInteger(t)]
  {
    ParseSingleToken(t);
    TrimOfTrimmed(t);
    ToNumberWord(t);
  }

  /** Parsing a list of tokens that were joined with commas converts each token. */
  lemma ParseJoined(tokens: seq<string>)
    requires |tokens| >= 1
    requires forall i :: 0 <= i < |tokens| ==> ',' !in tokens[i]
    ensures ParseCategories(Join(tokens)) == ConvertTokens(tokens)
  {
    SplitJoin(tokens);
  }

  /** Decimal ids, each after its own white-space padding. */
  function PaddedDecimals(pads: seq<string>, ids: seq<nat>): seq<string>
    requires |pads| == |ids|
  {
    seq(|ids|, i requires 0 <= i < |ids| => pads[i] + Decimal(ids[i]))
  }

  /** Writing ids in decimal, each with any surrounding white space, and joining
      them with commas parses back to the same ids. */
  lemma ParsePaddedDecimals(pads: seq<string>, ids: seq<nat>)
    requires |pads| == |ids| >= 1
    requires forall i :: 0 <= i < |pads| ==> AllTrimmable(pads[i])
    ensures ParseCategories(Join(PaddedDecimals(pads, ids))) ==
            seq(|ids|, i requires 0 <= i < |ids| => Int(ids[i]))
  {
    var tokens := PaddedDecimals(pads, ids);
    forall i | 0 <= i < |tokens| ensures ',' !in tokens[i] {
      var pad, digits := pads[i], Decimal(ids[i]);
      assert tokens[i] == pad + digits;
      forall k | 0 <= k < |tokens[i]| ensures tokens[i][k] != ',' {
        if k < |pad| {
          assert tokens[i][k] == pad[k] && IsTrimmable(pad[k]);
        } else {
          assert tokens[i][k] == digits[k - |pad|] && IsDigit(digits[k - |pad|]);
        }
      }
    }
    ParseJoined(tokens);
    forall i | 0 <= i < |ids| ensures ToNumber(Trim(tokens[i])) == Int(ids[i]) {
      DecimalIsTrimmed(ids[i]);
      TrimPadded(pads[i], Decimal(ids[i]), []);
      assert pads[i] + Decimal(ids[i]) + [] == tokens[i];
      DecimalValue(ids[i]);
    }
  }

  /** "1, 2,3" gives 1, 2 and 3. */
  lemma ParseExample(text: string)
    requires text == "1, 2,3"
    ensures ParseCategories(text) == [Int(1), Int(2), Int(3)]
  {
    var pads, ids := ["", " ", ""], [1, 2, 3];
    assert Decimal(1) == "1" && Decimal(2) == "2" && Decimal(3) == "3";
    var tokens := PaddedDecimals(pads, ids);
    assert |tokens| == 3;
    assert tokens[0] == "1";
    assert tokens[1] == " 2";
    assert tokens[2] == "3";
    assert tokens == ["1", " 2", "3"];
    JoinExample(tokens);
    ParsePaddedDecimals(pads, ids);
  }

  /** "1,2" gives 1 and 2. */
  lemma ParseOneTwo(text: string)
    requires text == "1,2"
    ensures ParseCategories(text) == [Int(1), Int(2)]
  {
    var pads, ids := ["", ""], [1, 2];
    assert Decimal(1) == "1" && Decimal(2) == "2";
    var tokens := PaddedDecimals(pads, ids);
    assert |tokens| == 2;
    assert tokens[0] == "1";
    assert tokens[1] == "2";
    assert tokens == ["1", "2"];
    assert Join(tokens) == text;
    ParsePaddedDecimals(pads, ids);
  }

  lemma JoinExample(tokens: seq<string>)
    requires tokens == ["1", " 2", "3"]
    ensures Join(tokens) == "1, 2,3"
  {
    assert tokens[1..][1..] == ["3"];
    assert Join(tokens[1..]) == " 2" + "," + "3";
  }

  /** An empty list parses to the single number 0 (`Number("")` is 0). */
  lemma ParseEmpty()
    ensures ParseCategories("") == [Int(0)]
  {
  }
}
