/**
 * What the operands of a condition denote: which value a path leads to, what
 * counts as an index, how numbers compare, and when one value contains another.
 */
module ConditionMeaning {
  import opened Wrappers
  import opened PolicyIr

  // ---- Paths ----------------------------------------------------------------------------------------

  ghost predicate Separates(c: char) { c in {'.', '/'} }

  /** The first `n` characters are a part: separators, or the end, bound it. */
  ghost predicate StartsPart(path: string, n: nat) {
    && 0 < n <= |path| && (forall i :: 0 <= i < n ==> !Separates(path[i]))
    && (n < |path| ==> Separates(path[n]))
  }

  /** The parts of a path are its longest pieces without separators, in order. */
  ghost predicate Splits(path: string, parts: seq<string>)
    decreases |path|
  {
    if path == "" then parts == []
    else if Separates(path[0]) then Splits(path[1..], parts)
    else exists n: nat :: StartsPart(path, n) && parts != [] && parts[0] == path[..n] && Splits(path[n..], parts[1..])
  }

  lemma PartLength(path: string, n: nat, m: nat)
    requires StartsPart(path, n) && StartsPart(path, m)
    ensures n == m
  {
  }

  lemma {:induction false} SplitsOnce(path: string, x: seq<string>, y: seq<string>)
    requires Splits(path, x) && Splits(path, y)
    ensures x == y
    decreases |path|
  {
    if path != "" {
      if Separates(path[0]) {
        SplitsOnce(path[1..], x, y);
      } else {
        var n: nat :| StartsPart(path, n) && x != [] && x[0] == path[..n] && Splits(path[n..], x[1..]);
        var m: nat :| StartsPart(path, m) && y != [] && y[0] == path[..m] && Splits(path[m..], y[1..]);
        PartLength(path, n, m);
        SplitsOnce(path[n..], x[1..], y[1..]);
        assert x == [x[0]] + x[1..] && y == [y[0]] + y[1..];
      }
    }
  }

  /** Reading on after the piece `current`. */
  lemma {:induction false} PartsSplit(path: string, current: string)
    requires forall i :: 0 <= i < |current| ==> !Separates(current[i])
    ensures Splits(current + path, PartsAfter(path, current))
    decreases |path|
  {
    if path == "" {
      assert current + path == current;
      if current != "" {
        assert StartsPart(current, |current|) && current[..|current|] == current && current[|current|..] == "";
        assert PartsAfter(path, current)[1..] == [];
      }
    } else if Separates(path[0]) {
      PartsSplit(path[1..], "");
      assert "" + path[1..] == path[1..];
      if current == "" {
        assert current + path == path && PartsAfter(path, current) == PartsAfter(path[1..], "");
      } else {
        AfterSeparator(path, current);
      }
    } else {
      PartsSplit(path[1..], current + [path[0]]);
      assert current + path == (current + [path[0]]) + path[1..];
    }
  }

  lemma AfterSeparator(path: string, current: string)
    requires path != "" && Separates(path[0]) && current != "" && forall i :: 0 <= i < |current| ==> !Separates(current[i])
    requires Splits(path[1..], PartsAfter(path[1..], ""))
    ensures Splits(current + path, PartsAfter(path, current))
  {
    var whole, n := current + path, |current|;
    assert whole[..n] == current && whole[n..] == path && StartsPart(whole, n) && whole[0] == current[0];
    assert Splits(path, PartsAfter(path[1..], ""));
    assert PartsAfter(path, current)[1..] == PartsAfter(path[1..], "");
  }

  lemma {:induction false} SlashesVanish(path: string, parts: seq<string>)
    ensures Splits(TrimSlashes(path), parts) <==> Splits(path, parts)
  {
    if path != "" && path[0] == '/' {
      SlashesVanish(path[1..], parts);
    }
  }

  /** A path leads where its parts lead one after the other; leading slashes do not matter. */
  lemma PathMeans(value: Json, path: string, parts: seq<string>)
    requires Splits(path, parts)
    ensures JsonPath(value, path) == Descend(value, parts)
  {
    if path != "" {
      var rest := TrimSlashes(path);
      SlashesVanish(path, parts);
      PartsSplit(rest, "");
      assert "" + rest == rest;
      SplitsOnce(rest, Parts(rest), parts);
    }
  }

  // ---- One step ----------------------------------------------------------------------------------------

  ghost predicate Digits(s: string) { s != "" && forall i :: 0 <= i < |s| ==> '0' <= s[i] <= '9' }

  lemma {:induction false} DigitsMean(s: string)
    ensures DigitsValue(s).Some? <==> forall i :: 0 <= i < |s| ==> '0' <= s[i] <= '9'
  {
    if s != "" {
      DigitsMean(s[..|s| - 1]);
    }
  }

  /** Decimal digits, with or without a plus sign, are an index; nothing else is. */
  lemma IndexMeans(part: string)
    ensures ParseIndex(part).Some? <==> Digits(part) || (part != "" && part[0] == '+' && Digits(part[1..]))
  {
    DigitsMean(part);
    if part != "" {
      DigitsMean(part[1..]);
    }
    hide DigitsValue;
  }

  lemma {:induction false} DecimalValue(n: nat)
    ensures DigitsValue(Decimal(n)) == Some(n) && Digits(Decimal(n))
  {
    var last := Decimal(n)[|Decimal(n)| - 1];
    if n < 10 {
      assert Decimal(n)[..0] == "";
      assert DigitsValue("") == Some(0);
    } else {
      DecimalValue(n / 10);
      assert Decimal(n)[..|Decimal(n)| - 1] == Decimal(n / 10);
    }
  }

  /** The decimal form of a number is the index of that number, with a plus sign too. */
  lemma IndexOfDecimal(n: nat)
    ensures ParseIndex(Decimal(n)) == Some(n) && ParseIndex("+" + Decimal(n)) == Some(n)
  {
    DecimalValue(n);
    assert ("+" + Decimal(n))[1..] == Decimal(n);
    hide Decimal, DigitsValue;
  }

  /** A part leads to a field of that name, or to the item at that index; from anything else it leads nowhere. */
  lemma StepMeans(value: Json, part: string, r: Json)
    ensures Descend(value, [part]) == Some(r) <==>
      || (value.Object? && part in value.fields && value.fields[part] == r)
      || (value.Array? && exists i: nat :: ParseIndex(part) == Some(i) && i < |value.items| && value.items[i] == r)
  {
    assert [part][1..] == [];
    hide ParseIndex;
  }

  lemma {:induction false} StepsMean(value: Json, parts: seq<string>)
    requires parts != []
    ensures Descend(value, parts) ==
      if Descend(value, [parts[0]]).None? then None else Descend(Descend(value, [parts[0]]).value, parts[1..])
  {
    assert [parts[0]][1..] == [];
    hide ParseIndex;
  }

  // ---- Comparing and containing -----------------------------------------------------------------------

  lemma CompareMeans(a: real, b: real)
    ensures Compares(Less, a, b) <==> a < b
    ensures Compares(Greater, a, b) <==> Compares(Less, b, a)
    ensures Compares(LessOrEqual, a, b) <==> !Compares(Greater, a, b)
    ensures Compares(GreaterOrEqual, a, b) <==> !Compares(Less, a, b)
  {
  }

  /** Numbers compare as numbers whatever their form, and nothing else is one. */
  lemma NumberMeans(v: Option<Json>, r: real)
    ensures AsNumber(v) == Some(r) <==>
      v == Some(Num(Float(r))) || exists i :: v == Some(Num(Int(i))) && i as real == r
  {
  }

  /** A text contains the texts that stand in it, an array its items, and nothing else contains anything. */
  lemma ContainsMeans(container: Option<Json>, needle: Option<Json>)
    ensures ContainsValue(container, needle) <==>
      || (exists h, n, a, z :: container == Some(Str(h)) && needle == Some(Str(n)) && h == a + n + z)
      || (needle.Some? && exists items :: container == Some(Array(items)) && needle.value in items)
  {
    if container.Some? && container.value.Str? && needle.Some? && needle.value.Str? {
      OccursMeans(needle.value.s, container.value.s);
    }
    hide Occurs;
  }

  lemma OccursMeans(n: string, h: string)
    ensures Occurs(n, h) <==> exists a, z :: h == a + n + z
  {
    if i :| 0 <= i <= |h| && n <= h[i..] {
      var a, z := h[..i], h[i + |n|..];
      assert h[i..][..|n|] == n;
      assert h == a + n + z;
    }
    if a, z :| h == a + n + z {
      assert h[|a|..] == n + z;
      assert 0 <= |a| <= |h| && n <= h[|a|..];
    }
  }
}
