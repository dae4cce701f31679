/** The key scheme: every entry of model class `M` and id `n` lives under `M_n`, and the
    repository scans for a model's keys with the pattern `M_*`. */
module CacheKeys {
  import opened Types
  import opened Glob

  function Digit(d: nat): (c: char)
    requires d < 10
    ensures '0' <= c <= '9'
  {
    (('0' as int) + d) as char
  }

  /** PHP's decimal rendering of a non-negative integer id. */
  function Decimal(n: nat): (r: string)
    ensures |r| >= 1
    ensures n < 10 <==> |r| == 1
    ensures forall i | 0 <= i < |r| :: '0' <= r[i] <= '9'
  {
    if n < 10 then [Digit(n)] else Decimal(n / 10) + [Digit(n % 10)]
  }

  /** The text of `$this->id`: PHP's `null` concatenates as the empty string. */
  function IdText(id: Option<nat>): (t: string)
    ensures '_' !in t
  {
    if id.None? then "" else Decimal(id.value)
  }

  /** `$this->model . '_' . $this->id` */
  function Key(model: string, id: Option<nat>): (k: string)
    ensures |k| > |model| && k[..|model| + 1] == model + "_"
    ensures k[|model| + 1..] == IdText(id) && '_' !in k[|model| + 1..]
  {
    model + "_" + IdText(id)
  }

  /** The pattern of `setInCache`: `model . '_*'` with every backslash doubled. */
  function ScanPattern(model: string): (p: string)
    ensures p == ReplaceChar(model + "_", '\\', "\\\\") + "*"
  {
    ReplaceCharAppend(model + "_", "*", '\\', "\\\\");
    assert model + "_" + "*" == model + "_*";
    assert ReplaceChar("*", '\\', "\\\\") == "*";
    ReplaceChar(model + "_*", '\\', "\\\\")
  }

  /** The pattern of `clearCache`: `model . '_*'` with every backslash turned into `?`. */
  function ClearPattern(model: string): (p: string)
    ensures p == ReplaceChar(model + "_", '\\', "?") + "*"
  {
    ReplaceCharAppend(model + "_", "*", '\\', "?");
    assert model + "_" + "*" == model + "_*";
    assert ReplaceChar("*", '\\', "?") == "*";
    ReplaceChar(model + "_*", '\\', "?")
  }

  /** Two ids render to the same text only when they are the same id. */
  lemma {:induction false} DecimalInjective(a: nat, b: nat)
    requires Decimal(a) == Decimal(b)
    ensures a == b
  {
    if a >= 10 && b >= 10 {
      var da, db := Decimal(a), Decimal(b);
      assert da[..|da| - 1] == Decimal(a / 10);
      assert db[..|db| - 1] == Decimal(b / 10);
      DecimalInjective(a / 10, b / 10);
      assert da[|da| - 1] == Digit(a % 10);
      assert db[|db| - 1] == Digit(b % 10);
    }
  }

  /** The characters after the last `_` of a key (all of it when it has none). */
  function IdPart(k: string): (t: string)
    ensures '_' !in t
  {
    if k == [] || k[|k| - 1] == '_' then [] else IdPart(k[..|k| - 1]) + [k[|k| - 1]]
  }

  /** A key reads back to its id text: the text after the model and the separator. */
  lemma {:induction false} IdPartOfKey(prefix: string, t: string)
    requires '_' !in t
    ensures IdPart(prefix + "_" + t) == t
  {
    var k := prefix + "_" + t;
    if t != [] {
      assert k[..|k| - 1] == prefix + "_" + t[..|t| - 1];
      IdPartOfKey(prefix, t[..|t| - 1]);
      assert t == t[..|t| - 1] + [t[|t| - 1]];
    }
  }

  /** Distinct (model, id) pairs never share a key: the id text holds no `_`, so the
      last `_` of a key separates the model from the id. */
  lemma KeyInjective(m1: string, i1: Option<nat>, m2: string, i2: Option<nat>)
    requires Key(m1, i1) == Key(m2, i2)
    ensures m1 == m2 && i1 == i2
  {
    var t1, t2 := IdText(i1), IdText(i2);
    var k := Key(m1, i1);
    IdPartOfKey(m1, t1);
    IdPartOfKey(m2, t2);
    assert t1 == t2;
    assert m1 == k[..|m1|] == m2;
    if i1.Some? && i2.Some? {
      DecimalInjective(i1.value, i2.value);
    }
  }

  /** For a model name without wildcards, the scan pattern of `setInCache` matches exactly
      the keys that start with `model + "_"`. */
  lemma ScanMatchesPrefix(model: string, k: string)
    requires NoWildcards(model)
    ensures Matches(ScanPattern(model), k) <==> |model| + 1 <= |k| && k[..|model| + 1] == model + "_"
  {
    var m := model + "_";
    EscapedPrefix(m, "*", k);
    if |m| <= |k| {
      StarMatchesAll(k[|m|..]);
    }
  }

  /** For a model name without wildcards, the pattern of `clearCache` matches the keys
      that start with `model + "_"` once each backslash of the name may stand for any
      character. */
  lemma ClearMatchesLoosePrefix(model: string, k: string)
    requires NoWildcards(model)
    ensures Matches(ClearPattern(model), k)
        <==> |model| + 1 <= |k| && AgreesOutsideBackslashes(model + "_", k[..|model| + 1])
  {
    var m := model + "_";
    WildcardPrefix(m, "*", k);
    if |m| <= |k| {
      StarMatchesAll(k[|m|..]);
    }
  }

  /** Every key of the current model and any id is among the keys `setInCache` counts. */
  lemma OwnKeyScanned(model: string, id: Option<nat>)
    requires NoWildcards(model)
    ensures Matches(ScanPattern(model), Key(model, id))
  {
    ScanMatchesPrefix(model, Key(model, id));
    assert Key(model, id)[..|model| + 1] == model + "_";
  }

  /** Whatever `setInCache` counts, `clearCache` deletes. */
  lemma ScannedAreCleared(model: string, k: string)
    requires NoWildcards(model)
    requires Matches(ScanPattern(model), k)
    ensures Matches(ClearPattern(model), k)
  {
    ScanMatchesPrefix(model, k);
    ClearMatchesLoosePrefix(model, k);
  }

  /** The `_` separator is not escaped: the scan for model `M` also counts the keys of a
      different model named `M_x`. */
  lemma ScanCountsExtendedModel(model: string, x: string, id: Option<nat>)
    requires NoWildcards(model)
    ensures model + "_" + x != model
    ensures Matches(ScanPattern(model), Key(model + "_" + x, id))
  {
    var k := Key(model + "_" + x, id);
    ScanMatchesPrefix(model, k);
    assert k[..|model| + 1] == model + "_";
  }

  /** The pattern of `clearCache` is looser than that of `setInCache`: for the class
      `A\B`, it also deletes the entry of class `AxB` with id 1, which the scan does not count. */
  lemma ClearDeletesOtherModel()
    ensures Key("AxB", Some(1)) == "AxB_1"
    ensures Matches(ClearPattern("A\\B"), Key("AxB", Some(1)))
    ensures !Matches(ScanPattern("A\\B"), Key("AxB", Some(1)))
  {
    var m := "A\\B";
    var k := Key("AxB", Some(1));
    assert Decimal(1) == "1";
    assert k == "AxB_1";
    assert NoWildcards(m);
    ClearMatchesLoosePrefix(m, k);
    ScanMatchesPrefix(m, k);
    assert k[..|m| + 1] == "AxB_";
    assert AgreesOutsideBackslashes(m + "_", "AxB_");
    assert k[1] != (m + "_")[1];
  }
}
