/** The controller's option layers (plugins/ace/controller.js): the static
    defaults, the stored options set by `setOptions`, and the
    `emmet-<key>-<value>` tokens read from the editor's class name. */
module Options {
  import opened Text

  /** An option value: the JavaScript values the controller meets. A
      number is a real or `NaN`; `Undefined` and `Null` are the explicit
      values an options object may carry; `Other` stands for any object (the
      editor passed to `setup`, for one). */
  datatype Value = Bool(b: bool) | Str(s: string) | Num(n: real) | NaN | Undefined | Null | Other

  type Options = map<string, Value>

  /** `defaultOptions`: the profile and the syntax, and both gated features
      switched off. */
  function Defaults(): (r: Options)
    ensures r.Keys == {"profile", "syntax", "use_tab", "pretty_break"}
    ensures r["profile"] == Str("xhtml") && r["syntax"] == Str("html")
    ensures !Truthy(Some(r["use_tab"])) && !Truthy(Some(r["pretty_break"]))
  {
    map["profile" := Str("xhtml"), "syntax" := Str("html"),
        "use_tab" := Bool(false), "pretty_break" := Bool(false)]
  }

  /** JavaScript truthiness of an option lookup; a missing key is
      `undefined`. The falsy values are `false`, `""`, zero, `NaN`,
      `undefined` and `null`; everything else is truthy. */
  function Truthy(v: Option<Value>): (b: bool)
    ensures b <==> !(v.None? || v.value in {Bool(false), Str(""), Num(0.0), NaN, Undefined, Null})
  {
    match v
    case None => false
    case Some(Bool(b)) => b
    case Some(Str(s)) => s != ""
    case Some(Num(n)) => n != 0.0
    case Some(NaN) => false
    case Some(Undefined) => false
    case Some(Null) => false
    case Some(Other) => true
  }

  /** `copyOptions(opt)`: the defaults, overridden key by key by `opt` when
      it is given. */
  function CopyOptions(opt: Option<Options>): (r: Options)
    ensures forall k :: k in r <==> k in Defaults() || (opt.Some? && k in opt.value)
    ensures forall k :: k in r ==>
      r[k] == (if opt.Some? && k in opt.value then opt.value[k] else Defaults()[k])
  {
    if opt.None? then Defaults() else Defaults() + opt.value
  }

  /** A character of the regular-expression class `\w`. */
  predicate IsWordChar(c: char)
  {
    'a' <= c <= 'z' || 'A' <= c <= 'Z' || '0' <= c <= '9' || c == '_'
  }

  /** A non-empty run of `\w` characters. */
  predicate IsWord(w: string)
  {
    |w| > 0 && forall i :: 0 <= i < |w| ==> IsWordChar(w[i])
  }

  /** The length of the longest run of `\w` characters at the start of `s`:
      what a greedy `\w+` takes. */
  function WordRun(s: string): (n: nat)
    ensures n <= |s|
    ensures forall i :: 0 <= i < n ==> IsWordChar(s[i])
    ensures n < |s| ==> !IsWordChar(s[n])
  {
    if |s| > 0 && IsWordChar(s[0]) then 1 + WordRun(s[1..]) else 0
  }

  /** One `emmet-<key>-<value>` match, as captured (not yet lower-cased). */
  datatype Param = Param(key: string, value: string)

  const Prefix: string := "emmet-"

  /** The text of a token. */
  function Token(p: Param): string
  {
    Prefix + p.key + "-" + p.value
  }

  /** The pattern `emmet\-(\w+)\-(\w+)` tried at the start of `s`: the
      captured words and the length of the match. Greedy `\w+` needs no
      backtracking here, since no shorter run of word characters can be
      followed by `-`. */
  function MatchHere(s: string): (m: Option<(Param, nat)>)
    ensures m.Some? ==> m.value.1 == |Token(m.value.0)| <= |s|
    ensures m.Some? ==> IsWord(m.value.0.key) && IsWord(m.value.0.value)
    ensures m.Some? && m.value.1 < |s| ==> !IsWordChar(s[m.value.1])
  {
    if |s| >= |Prefix| && s[..|Prefix|] == Prefix then
      var rest := s[|Prefix|..];
      var k := WordRun(rest);
      if 0 < k < |rest| && rest[k] == '-' then
        var after := rest[k + 1..];
        var v := WordRun(after);
        if v > 0 then
          var p := Param(rest[..k], after[..v]);
          Some((p, |Prefix| + k + 1 + v))
        else None
      else None
    else None
  }

  /** A match spells `emmet-<key>-<value>` at the start of the text. */
  lemma MatchSpellsToken(s: string)
    ensures MatchHere(s).Some? ==> s[..MatchHere(s).value.1] == Token(MatchHere(s).value.0)
  {
    if |s| >= |Prefix| && s[..|Prefix|] == Prefix {
      var rest := s[|Prefix|..];
      var k := WordRun(rest);
      if 0 < k < |rest| && rest[k] == '-' {
        var after := rest[k + 1..];
        var v := WordRun(after);
        if v > 0 {
          var p := Param(rest[..k], after[..v]);
          assert s[..|Prefix| + k + 1 + v] == Token(p);
        }
      }
    }
  }

  /** The successive matches of the global regular expression
      `/\bemmet\-(\w+)\-(\w+)/g` in `s`. `afterWord` says whether the
      character before `s` is a word character, so that the `\b` before
      `emmet` fails there. After a match the search resumes at its end;
      after a failed attempt, one character further. */
  function Scan(s: string, afterWord: bool): (r: seq<Param>)
    ensures forall i :: 0 <= i < |r| ==> IsWord(r[i].key) && IsWord(r[i].value)
    decreases |s|
  {
    if |s| == 0 then []
    else
      var m := if afterWord then None else MatchHere(s);
      if m.Some? then [m.value.0] + Scan(s[m.value.1..], true)
      else Scan(s[1..], IsWordChar(s[0]))
  }

  /** Tokens separated by single spaces: a class name such as
      `"emmet-use_tab-no emmet-profile-html"`. */
  function Render(ps: seq<Param>): string
  {
    if |ps| == 0 then ""
    else if |ps| == 1 then Token(ps[0])
    else Token(ps[0]) + " " + Render(ps[1..])
  }

  lemma {:induction false} WordRunOfWord(w: string, rest: string)
    requires forall i :: 0 <= i < |w| ==> IsWordChar(w[i])
    requires |rest| > 0 ==> !IsWordChar(rest[0])
    ensures WordRun(w + rest) == |w|
  {
    if |w| > 0 {
      assert (w + rest)[1..] == w[1..] + rest;
      WordRunOfWord(w[1..], rest);
    } else {
      assert w + rest == rest;
    }
  }

  /** A token followed by nothing or by a non-word character matches in
      full. */
  lemma MatchToken(p: Param, rest: string)
    requires IsWord(p.key) && IsWord(p.value)
    requires |rest| > 0 ==> !IsWordChar(rest[0])
    ensures MatchHere(Token(p) + rest) == Some((p, |Token(p)|))
  {
    var s := Token(p) + rest;
    assert s[..|Prefix|] == Prefix;
    var tail := s[|Prefix|..];
    assert tail == p.key + ("-" + p.value + rest);
    WordRunOfWord(p.key, "-" + p.value + rest);
    var after := tail[|p.key| + 1..];
    assert after == p.value + rest;
    WordRunOfWord(p.value, rest);
    assert tail[..|p.key|] == p.key;
    assert after[..|p.value|] == p.value;
  }

  /** `\w+` stops at a non-word character, whatever follows it. */
  lemma {:induction false} WordRunAppend(a: string, b: string)
    requires |b| > 0 && !IsWordChar(b[0])
    ensures WordRun(a + b) == WordRun(a)
  {
    if |a| == 0 {
      assert a + b == b;
    } else if IsWordChar(a[0]) {
      assert (a + b)[1..] == a[1..] + b;
      WordRunAppend(a[1..], b);
    }
  }

  /** Without the prefix there is no match, with or without a space and
      more text after it. */
  lemma MatchNoPrefix(x: string, y: string)
    requires |y| > 0 && y[0] == ' '
    requires !(|x| >= |Prefix| && x[..|Prefix|] == Prefix)
    ensures MatchHere(x + y) == None && MatchHere(x) == None
  {
    var s := x + y;
    if |x| >= |Prefix| {
      assert s[..|Prefix|] == x[..|Prefix|];
    } else if |s| >= |Prefix| {
      assert s[..|Prefix|][|x|] != Prefix[|x|];
    }
  }

  /** After the prefix, both word runs stop where they would without the
      space and what follows it. */
  lemma MatchWithPrefix(x: string, y: string)
    requires |y| > 0 && y[0] == ' '
    requires |x| >= |Prefix| && x[..|Prefix|] == Prefix
    ensures MatchHere(x + y) == MatchHere(x)
  {
    var s := x + y;
    assert s[..|Prefix|] == Prefix;
    var rx := x[|Prefix|..];
    var rs := s[|Prefix|..];
    assert rs == rx + y;
    WordRunAppend(rx, y);
    var k := WordRun(rx);
    if 0 < k < |rx| && rx[k] == '-' {
      assert rs[k + 1..] == rx[k + 1..] + y;
      WordRunAppend(rx[k + 1..], y);
      assert rs[..k] == rx[..k];
      assert rs[k + 1..][..WordRun(rx[k + 1..])] == rx[k + 1..][..WordRun(rx[k + 1..])];
    } else if k == |rx| {
      assert rs[k] == ' ';
    }
  }

  /** A match never reaches past a space: what follows the space does not
      change the attempt. */
  lemma MatchHereAppend(x: string, y: string)
    requires |y| > 0 && y[0] == ' '
    ensures MatchHere(x + y) == MatchHere(x)
  {
    if |x| >= |Prefix| && x[..|Prefix|] == Prefix {
      MatchWithPrefix(x, y);
    } else {
      MatchNoPrefix(x, y);
    }
  }

  /** A space never starts a match. */
  lemma ScanSpace(y: string, afterWord: bool)
    requires |y| > 0 && y[0] == ' '
    ensures Scan(y, afterWord) == Scan(y[1..], false)
  {
    assert y[0] != Prefix[0];
    assert |y| >= |Prefix| ==> y[..|Prefix|] != Prefix;
  }

  /** A failed attempt (or one the `\b` forbids) at the head of `x` is
      also a failed attempt at the head of `x + y` when both attempts
      agree: both scans move one character on. */
  lemma SkipCase(x: string, y: string, afterWord: bool)
    requires |x| > 0 && |y| > 0
    requires afterWord || MatchHere(x).None?
    requires MatchHere(x + y) == MatchHere(x)
    ensures Scan(x + y, afterWord) == Scan(x[1..] + y, IsWordChar(x[0]))
    ensures Scan(x, afterWord) == Scan(x[1..], IsWordChar(x[0]))
  {
    assert (x + y)[1..] == x[1..] + y;
  }

  /** A match at the head of `x` is also the match at the head of `x + y`
      when both attempts agree: both scans resume at its end. */
  lemma MatchCase(x: string, y: string)
    requires |x| > 0 && |y| > 0
    requires MatchHere(x).Some?
    requires MatchHere(x + y) == MatchHere(x)
    ensures MatchHere(x).value.1 <= |x|
    ensures Scan(x + y, false) == [MatchHere(x).value.0] + Scan(x[MatchHere(x).value.1..] + y, true)
    ensures Scan(x, false) == [MatchHere(x).value.0] + Scan(x[MatchHere(x).value.1..], true)
  {
    var n := MatchHere(x).value.1;
    assert (x + y)[n..] == x[n..] + y;
  }

  /** Scanning text followed by a space and more text finds the matches of
      the first part, then those of the part after the space. */
  lemma {:induction false} ScanAppend(x: string, y: string, afterWord: bool)
    requires |y| > 0 && y[0] == ' '
    ensures Scan(x + y, afterWord) == Scan(x, afterWord) + Scan(y[1..], false)
    decreases |x|
  {
    if |x| == 0 {
      assert x + y == y;
      ScanSpace(y, afterWord);
    } else {
      MatchHereAppend(x, y);
      if !afterWord && MatchHere(x).Some? {
        MatchCase(x, y);
        ScanAppend(x[MatchHere(x).value.1..], y, true);
      } else {
        SkipCase(x, y, afterWord);
        ScanAppend(x[1..], y, IsWordChar(x[0]));
      }
    }
  }

  /** A single well-formed token scans to itself. */
  lemma ScanToken(p: Param)
    requires IsWord(p.key) && IsWord(p.value)
    ensures Scan(Token(p), false) == [p]
  {
    MatchToken(p, "");
    assert Token(p) + "" == Token(p);
    assert Token(p)[|Token(p)|..] == "";
  }

  /** Scanning a class name made of well-formed tokens recovers exactly
      those tokens, in order. */
  lemma {:induction false} ScanRender(ps: seq<Param>)
    requires forall i :: 0 <= i < |ps| ==> IsWord(ps[i].key) && IsWord(ps[i].value)
    ensures Scan(Render(ps), false) == ps
  {
    if |ps| == 1 {
      ScanToken(ps[0]);
    } else if |ps| > 1 {
      var rest := " " + Render(ps[1..]);
      assert Render(ps) == Token(ps[0]) + rest;
      ScanAppend(Token(ps[0]), rest, false);
      ScanToken(ps[0]);
      assert rest[1..] == Render(ps[1..]);
      ScanRender(ps[1..]);
      assert ps == [ps[0]] + ps[1..];
    }
  }

  /** A class name holding other classes before space-separated tokens
      yields the other classes' matches, then exactly those tokens. */
  lemma ScanAfterClasses(x: string, ps: seq<Param>)
    requires forall i :: 0 <= i < |ps| ==> IsWord(ps[i].key) && IsWord(ps[i].value)
    ensures Scan(x + " " + Render(ps), false) == Scan(x, false) + ps
  {
    assert x + " " + Render(ps) == x + (" " + Render(ps));
    ScanAppend(x, " " + Render(ps), false);
    assert (" " + Render(ps))[1..] == Render(ps);
    ScanRender(ps);
  }

  /** Every match holds two dashes: the one after `emmet` and the one after
      the key. */
  lemma MatchHasTwoDashes(s: string)
    ensures MatchHere(s).Some? ==>
      6 + |MatchHere(s).value.0.key| < |s| && s[5] == '-' && s[6 + |MatchHere(s).value.0.key|] == '-'
  {
    MatchSpellsToken(s);
    if MatchHere(s).Some? {
      var p := MatchHere(s).value.0;
      assert Token(p)[5] == '-';
      assert Token(p)[6 + |p.key|] == '-';
    }
  }

  /** Text with at most one dash holds no match. */
  lemma {:induction false} ScanFewDashes(s: string, afterWord: bool)
    requires forall i, j :: 0 <= i < j < |s| && s[i] == '-' ==> s[j] != '-'
    ensures Scan(s, afterWord) == []
    decreases |s|
  {
    if |s| > 0 {
      MatchHasTwoDashes(s);
      ScanFewDashes(s[1..], IsWordChar(s[0]));
    }
  }

  /** After a word character, a run of word characters cannot start a
      match. */
  lemma {:induction false} SkipWord(w: string, s: string)
    requires forall i :: 0 <= i < |w| ==> IsWordChar(w[i])
    ensures Scan(w + s, true) == Scan(s, true)
    decreases |w|
  {
    if |w| > 0 {
      assert (w + s)[1..] == w[1..] + s;
      SkipWord(w[1..], s);
    } else {
      assert w + s == s;
    }
  }

  /** The `\b` before `emmet`: a token glued to a preceding word character,
      as in `xemmet-use_tab-no`, is not captured. */
  lemma GluedTokenSkipped(c: char, p: Param)
    requires IsWordChar(c) && IsWord(p.key) && IsWord(p.value)
    ensures Scan([c] + Token(p), false) == []
  {
    var t := [c] + Token(p);
    assert t[..|Prefix|][1] != Prefix[1];
    assert t[1..] == Token(p);
    var tail := p.key + "-" + p.value;
    assert Token(p) == "emmet" + ("-" + tail);
    SkipWord("emmet", "-" + tail);
    assert ("-" + tail)[1..] == tail;
    assert forall i :: 0 <= i < |tail| && tail[i] == '-' ==> i == |p.key|;
    ScanFewDashes(tail, false);
  }

  /** Boolean coercion of a lower-cased context value. */
  function Coerce(v: string): (r: Value)
    ensures r == Bool(true) <==> v in {"true", "yes", "1"}
    ensures r == Bool(false) <==> v in {"false", "no", "0"}
    ensures !r.Bool? ==> r == Str(v)
  {
    if v == "true" || v == "yes" || v == "1" then Bool(true)
    else if v == "false" || v == "no" || v == "0" then Bool(false)
    else Str(v)
  }

  /** The value a match contributes: its key and value lower-cased, the value
      coerced. */
  function SettingOf(p: Param): Value
  {
    Coerce(ToLower(p.value))
  }

  /** Write the matches into `m` in order, each overwriting its key: a key
      ends up holding the last match's value for it, or else what it held
      before. */
  function Apply(m: Options, ps: seq<Param>): (r: Options)
    ensures forall k :: k in r <==> k in m || LastSetting(ps, k).Some?
    ensures forall k :: k in r ==>
      r[k] == (if LastSetting(ps, k).Some? then LastSetting(ps, k).value else m[k])
    decreases |ps|
  {
    if |ps| == 0 then m
    else
      LastSettingFrontAll(ps[0], ps[1..]);
      assert [ps[0]] + ps[1..] == ps;
      Apply(m[ToLower(ps[0].key) := SettingOf(ps[0])], ps[1..])
  }

  /** The value of the last match whose lower-cased key is `k`, if any. */
  function LastSetting(ps: seq<Param>, k: string): Option<Value>
  {
    if |ps| == 0 then None
    else if ToLower(ps[|ps| - 1].key) == k then Some(SettingOf(ps[|ps| - 1]))
    else LastSetting(ps[..|ps| - 1], k)
  }

  lemma {:induction false} LastSettingFront(p: Param, ps: seq<Param>, k: string)
    ensures LastSetting([p] + ps, k)
         == if LastSetting(ps, k).Some? then LastSetting(ps, k)
            else if ToLower(p.key) == k then Some(SettingOf(p)) else None
  {
    var s := [p] + ps;
    if |ps| > 0 {
      assert s[..|s| - 1] == [p] + ps[..|ps| - 1];
      assert s[|s| - 1] == ps[|ps| - 1];
      LastSettingFront(p, ps[..|ps| - 1], k);
    }
  }

  lemma LastSettingFrontAll(p: Param, ps: seq<Param>)
    ensures forall k ::
      LastSetting([p] + ps, k)
        == if LastSetting(ps, k).Some? then LastSetting(ps, k)
           else if ToLower(p.key) == k then Some(SettingOf(p)) else None
  {
    forall k {
      LastSettingFront(p, ps, k);
    }
  }

  /** The matches in the editor's class name (`className || ''`). */
  function ContextParams(className: Option<string>): seq<Param>
  {
    Scan(if className.None? then "" else className.value, false)
  }

  /** `getOptionsFromContext`: the stored options over the defaults, then
      the class-name matches over both. */
  function OptionsFromContext(stored: Options, className: Option<string>): (r: Options)
    ensures forall k :: k in r <==>
      LastSetting(ContextParams(className), k).Some? || k in stored || k in Defaults()
    ensures forall k :: k in r ==>
      r[k] == (if LastSetting(ContextParams(className), k).Some? then LastSetting(ContextParams(className), k).value
               else if k in stored then stored[k] else Defaults()[k])
  {
    Apply(CopyOptions(Some(stored)), ContextParams(className))
  }

  /** `getOption(name)`: the context value when the class name sets `name`,
      else the stored value, else the default, else `undefined`. */
  function GetOption(stored: Options, className: Option<string>, name: string): (r: Option<Value>)
    ensures var c := LastSetting(ContextParams(className), name);
      r == if c.Some? then c
           else if name in stored then Some(stored[name])
           else if name in Defaults() then Some(Defaults()[name])
           else None
  {
    var resolved := OptionsFromContext(stored, className);
    if name in resolved then Some(resolved[name]) else None
  }

  /** A class name holding one well-formed token yields exactly that match. */
  lemma ContextOfOneToken(p: Param)
    requires IsWord(p.key) && IsWord(p.value)
    ensures ContextParams(Some(Token(p))) == [p]
  {
    ScanRender([p]);
  }

  /** The context layer wins last: a class name holding one well-formed
      token sets its key, whatever the stored options say. */
  lemma ContextWins(stored: Options, p: Param)
    requires IsWord(p.key) && IsWord(p.value)
    ensures GetOption(stored, Some(Token(p)), ToLower(p.key)) == Some(SettingOf(p))
  {
    ContextOfOneToken(p);
    assert LastSetting([p], ToLower(p.key)) == Some(SettingOf(p));
  }

  /** The token `emmet-use_tab-no`: well formed, and setting `use_tab` to
      false. */
  lemma UseTabNo()
    ensures var p := Param("use_tab", "no");
      IsWord(p.key) && IsWord(p.value) && Token(p) == "emmet-use_tab-no"
      && ToLower(p.key) == "use_tab" && SettingOf(p) == Bool(false)
  {
    var p := Param("use_tab", "no");
    assert IsWord(p.key) by {
      assert forall i :: 0 <= i < |p.key| ==> IsWordChar(p.key[i]);
    }
    assert IsWord(p.value);
    LowerCaseUnchanged("use_tab");
    LowerCaseUnchanged("no");
  }

  /** For instance, whatever the stored options say, the class name
      `emmet-use_tab-no` makes `use_tab` false. */
  lemma ContextBeatsStored(stored: Options)
    ensures GetOption(stored, Some("emmet-use_tab-no"), "use_tab") == Some(Bool(false))
  {
    UseTabNo();
    ContextWins(stored, Param("use_tab", "no"));
  }
}
