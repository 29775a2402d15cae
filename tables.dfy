/** The string side of the deep mutation: the table name derived from a class
    name, the database key `"<table>:<n>"`, and `Query.node`'s recovery of the
    type name from a key with `split(":")[0]`. */
module Tables {

  /** `str.lower()` on one character, for the ASCII letters class names use. */
  function LowerChar(c: char): (d: char)
    ensures !('A' <= d <= 'Z')
    ensures 'A' <= c <= 'Z' ==> d as int == c as int + 32
    ensures !('A' <= c <= 'Z') ==> d == c
  {
    if 'A' <= c <= 'Z' then (c as int - 'A' as int + 'a' as int) as char else c
  }

  function Lower(s: string): (r: string)
    ensures |r| == |s|
    ensures forall i | 0 <= i < |s| :: r[i] == LowerChar(s[i])
  {
    if s == [] then [] else [LowerChar(s[0])] + Lower(s[1..])
  }

  /** How many leading characters of `s` are in `cs`. */
  function LeadLength(s: string, cs: set<char>): (n: nat)
    ensures n <= |s|
    ensures forall k | 0 <= k < n :: s[k] in cs
    ensures n < |s| ==> s[n] !in cs
  {
    if s == [] || s[0] !in cs then 0
    else
      var n := LeadLength(s[1..], cs);
      assert forall k | 1 <= k < n + 1 :: s[k] == s[1..][k - 1];
      n + 1
  }

  /** How long `s` is once its trailing characters that are in `cs` are dropped. */
  function KeptLength(s: string, cs: set<char>): (n: nat)
    ensures n <= |s|
    ensures forall k | n <= k < |s| :: s[k] in cs
    ensures n > 0 ==> s[n - 1] !in cs
  {
    if s == [] || s[|s| - 1] !in cs then |s| else KeptLength(s[..|s| - 1], cs)
  }

  /** `s.lstrip(cs)`: a suffix of `s`; only characters of `cs` are cut, and
      the result does not start with one. */
  function StripLeft(s: string, cs: set<char>): (r: string)
    ensures |r| <= |s| && r == s[|s| - |r|..]
    ensures forall k | 0 <= k < |s| - |r| :: s[k] in cs
    ensures r != [] ==> r[0] !in cs
  {
    s[LeadLength(s, cs)..]
  }

  /** `s.rstrip(cs)`: a prefix of `s`; only characters of `cs` are cut, and
      the result does not end with one. */
  function StripRight(s: string, cs: set<char>): (r: string)
    ensures |r| <= |s| && r == s[..|r|]
    ensures forall k | |r| <= k < |s| :: s[k] in cs
    ensures r != [] ==> r[|r| - 1] !in cs
  {
    s[..KeptLength(s, cs)]
  }

  /** `s.strip(cs)`: the argument is a set of characters, not a suffix. */
  function Strip(s: string, cs: set<char>): (r: string)
    ensures |r| <= |s|
    ensures r != [] ==> r[0] !in cs && r[|r| - 1] !in cs
  {
    StripRight(StripLeft(s, cs), cs)
  }

  /** The characters of the argument of `strip("Model")`. */
  const ModelChars: set<char> := {'M', 'o', 'd', 'e', 'l'}

  /** The table a node of class `cls` is written to. */
  function TableName(cls: string): (r: string)
    ensures 0 < |r| <= |cls| + 1 && r[|r| - 1] == 's'
    ensures |r| > 1 ==> r[0] !in ModelChars && r[|r| - 2] !in ModelChars
  {
    Strip(Lower(cls), ModelChars) + "s"
  }

  /** The leading run of characters of `cs` ends exactly where the first other
      character stands. */
  lemma LeadLengthAt(s: string, cs: set<char>, n: nat)
    requires n <= |s| && forall k | 0 <= k < n :: s[k] in cs
    requires n < |s| ==> s[n] !in cs
    ensures LeadLength(s, cs) == n
  {
  }

  /** The trailing run of characters of `cs` starts right after the last other
      character. */
  lemma KeptLengthAt(s: string, cs: set<char>, n: nat)
    requires n <= |s| && forall k | n <= k < |s| :: s[k] in cs
    requires n > 0 ==> s[n - 1] !in cs
    ensures KeptLength(s, cs) == n
  {
  }

  /** `Strip(s, cs)` is a stretch `s[i..j]` with only characters of `cs` cut
      from either end; what is left neither starts nor ends with one of them. */
  lemma StripShape(s: string, cs: set<char>) returns (i: nat, j: nat)
    ensures i <= j <= |s| && Strip(s, cs) == s[i..j]
    ensures forall k | 0 <= k < i :: s[k] in cs
    ensures forall k | j <= k < |s| :: s[k] in cs
    ensures i < j ==> s[i] !in cs && s[j - 1] !in cs
  {
    i := LeadLength(s, cs);
    var left := s[i..];
    var m := KeptLength(left, cs);
    j := i + m;
    assert left[..m] == s[i..j];
    forall k | j <= k < |s| ensures s[k] in cs {
      assert s[k] == left[k - i];
    }
    if i < j {
      assert s[j - 1] == left[m - 1];
    }
  }

  /** The table name is the stretch `l[i..j]` of the lowercased class name `l`
      with only characters of "Model" cut from either end, followed by "s". */
  lemma TableNameShape(cls: string) returns (i: nat, j: nat)
    ensures var l := Lower(cls);
      && i <= j <= |l|
      && TableName(cls) == l[i..j] + "s"
      && (forall k | 0 <= k < i :: l[k] in ModelChars)
      && (forall k | j <= k < |l| :: l[k] in ModelChars)
      && (i < j ==> l[i] !in ModelChars && l[j - 1] !in ModelChars)
  {
    i, j := StripShape(Lower(cls), ModelChars);
  }

  /** The capital 'M' of "Model" never matches: the name is lowercased first,
      so the 'm' of a "...Model" class name is kept. */
  lemma CapitalMNeverStripped(cls: string)
    ensures TableName(cls) == Strip(Lower(cls), {'o', 'd', 'e', 'l'}) + "s"
  {
    var l := Lower(cls);
    StripIgnoresAbsent(l, ModelChars, {'o', 'd', 'e', 'l'});
  }

  /** Characters that do not occur in `s` make no difference to stripping it. */
  lemma StripIgnoresAbsent(s: string, cs: set<char>, ds: set<char>)
    requires forall k | 0 <= k < |s| :: s[k] in cs <==> s[k] in ds
    ensures Strip(s, cs) == Strip(s, ds)
  {
    var i := LeadLength(s, cs);
    LeadLengthAt(s, ds, i);
    var left := s[i..];
    forall k | 0 <= k < |left| ensures left[k] in cs <==> left[k] in ds {
      assert left[k] == s[i + k];
    }
    KeptLengthAt(left, ds, KeptLength(left, cs));
  }

  /** A class name that, lowercased, neither starts nor ends with a character
      of "Model" keeps its whole lowercased name: `ChildInput` gives
      "childinputs" and `ParentInput` gives "parentinputs". */
  lemma WholeNameKept(cls: string)
    requires cls != [] && LowerChar(cls[0]) !in ModelChars && LowerChar(cls[|cls| - 1]) !in ModelChars
    ensures TableName(cls) == Lower(cls) + "s"
  {
    var l := Lower(cls);
    assert l[0] !in ModelChars && l[|l| - 1] !in ModelChars;
    assert LeadLength(l, ModelChars) == 0;
    assert StripLeft(l, ModelChars) == l;
    assert KeptLength(l, ModelChars) == |l|;
    assert StripRight(l, ModelChars) == l;
  }

  /** A pydantic model class `<base>Model` loses "odel" but keeps the 'm':
      `ChildModel` gives "childms". */
  lemma ModelClassTable(base: string)
    requires base != [] && LowerChar(base[0]) !in ModelChars
    ensures TableName(base + "Model") == Lower(base) + "ms"
  {
    var lb := Lower(base);
    LowerAppend(base, "Model");
    LowerModel();
    var l := lb + "model";
    assert l[0] == lb[0] && l[0] !in ModelChars;
    assert LeadLength(l, ModelChars) == 0;
    assert StripLeft(l, ModelChars) == l;
    RightStripOfModel(lb);
  }

  /** Lowercasing works character by character. */
  lemma LowerAppend(a: string, b: string)
    ensures Lower(a + b) == Lower(a) + Lower(b)
  {
    var l, r := Lower(a + b), Lower(a) + Lower(b);
    forall k | 0 <= k < |l| ensures l[k] == r[k] {
      if k < |a| {
        assert (a + b)[k] == a[k];
      } else {
        assert (a + b)[k] == b[k - |a|];
      }
    }
  }

  /** The suffix "Model" lowercases to "model". */
  lemma LowerModel()
    ensures Lower("Model") == "model"
  {
    var l := Lower("Model");
    assert l[0] == LowerChar('M') == 'm';
    assert forall k | 1 <= k < 5 :: l[k] == "Model"[k];
  }

  /** Stripping "Model"'s characters from the right of `<lb>model` stops at the
      lowercase 'm', which is not one of them. */
  lemma RightStripOfModel(lb: string)
    ensures StripRight(lb + "model", ModelChars) + "s" == lb + "ms"
  {
    var l := lb + "model";
    var n := |lb|;
    assert l[n] == 'm' && l[n + 1] == 'o' && l[n + 2] == 'd' && l[n + 3] == 'e' && l[n + 4] == 'l';
    forall k | n + 1 <= k < |l| ensures l[k] in ModelChars {
      assert k == n + 1 || k == n + 2 || k == n + 3 || k == n + 4;
    }
    KeptLengthAt(l, ModelChars, n + 1);
    assert l[..n + 1] == lb + "m";
    assert lb + "m" + "s" == lb + "ms";
  }

  // ---------------------------------------------------------------------------
  // Keys

  function Digit(d: nat): (c: char)
    requires d < 10
    ensures '0' <= c <= '9'
  {
    ('0' as int + d) as char
  }

  /** The decimal text of `n`, as an f-string writes it. */
  function DecimalText(n: nat): (r: string)
    ensures r != [] && forall k | 0 <= k < |r| :: '0' <= r[k] <= '9'
  {
    if n < 10 then [Digit(n)] else DecimalText(n / 10) + [Digit(n % 10)]
  }

  /** Reading decimal digits back into a number. */
  function DecimalValue(s: string): nat
    requires forall k | 0 <= k < |s| :: '0' <= s[k] <= '9'
  {
    if s == [] then 0
    else
      DecimalValue(s[..|s| - 1]) * 10 + (s[|s| - 1] as int - '0' as int)
  }

  lemma {:induction false} DecimalRoundTrip(n: nat)
    ensures DecimalValue(DecimalText(n)) == n
  {
    if n >= 10 {
      DecimalRoundTrip(n / 10);
      var s := DecimalText(n);
      assert s[..|s| - 1] == DecimalText(n / 10);
    } else {
      assert DecimalText(n)[..0] == [];
    }
  }

  /** `f"{database_table}:{database_id}"` */
  function Key(table: string, n: nat): (r: string)
    ensures |r| > |table| + 1 && r[..|table|] == table && r[|table|] == ':'
    ensures forall k | |table| < k < |r| :: '0' <= r[k] <= '9'
  {
    table + ":" + DecimalText(n)
  }

  /** `id.split(":")[0]`: everything before the first colon, or the whole
      string when there is none. */
  function Prefix(id: string): (r: string)
    ensures |r| <= |id| && r == id[..|r|]
    ensures ':' !in r
    ensures |r| < |id| ==> id[|r|] == ':'
  {
    if id == [] || id[0] == ':' then [] else [id[0]] + Prefix(id[1..])
  }

  /** `split(":")[0]` gives back whatever stood before the first colon. */
  lemma {:induction false} PrefixOfJoin(head: string, rest: string)
    requires ':' !in head
    ensures Prefix(head + ":" + rest) == head
  {
    if head != [] {
      assert head[0] in head && forall c | c in head[1..] :: c in head;
      PrefixOfJoin(head[1..], rest);
      assert (head + ":" + rest)[1..] == head[1..] + ":" + rest;
    }
  }

  /** `split(":")[0]` gives back the table of any key built from a table name
      without a colon. */
  lemma PrefixOfKey(table: string, n: nat)
    requires ':' !in table
    ensures Prefix(Key(table, n)) == table
  {
    PrefixOfJoin(table, DecimalText(n));
  }

  /** A table name has a colon only when the class name has one. */
  lemma TableNameHasNoColon(cls: string)
    requires ':' !in cls
    ensures ':' !in TableName(cls)
  {
    var l := Lower(cls);
    assert ':' !in l by {
      forall k | 0 <= k < |l| ensures l[k] != ':' {
        assert cls[k] in cls;
      }
    }
    var left := StripLeft(l, ModelChars);
    var r := StripRight(left, ModelChars);
    forall k | 0 <= k < |r| ensures r[k] != ':' {
      assert r[k] == left[k] == l[|l| - |left| + k];
    }
    assert ':' !in r;
    assert TableName(cls) == r + "s";
  }

  /** Two keys are equal exactly when table and number are: a colliding key
      comes from the same table and the same drawn number. */
  lemma KeyInjective(t1: string, n1: nat, t2: string, n2: nat)
    requires ':' !in t1 && ':' !in t2
    ensures Key(t1, n1) == Key(t2, n2) <==> t1 == t2 && n1 == n2
  {
    if Key(t1, n1) == Key(t2, n2) {
      PrefixOfKey(t1, n1);
      PrefixOfKey(t2, n2);
      var k := Key(t1, n1);
      assert DecimalText(n1) == k[|t1| + 1..];
      assert DecimalText(n2) == k[|t2| + 1..];
      DecimalRoundTrip(n1);
      DecimalRoundTrip(n2);
    }
  }
}
