/** The key string whose digest becomes an issue's fingerprint. */
module Fingerprint {
  import opened Text

  /** `int(math.ceil(line / 10.0)) * 10`: the smallest multiple of ten
      that is not below `line`. */
  function RoundUpToTen(line: int): (r: int)
    ensures r % 10 == 0
    ensures line <= r < line + 10
  {
    (line + 9) / 10 * 10
  }

  /** Only one multiple of ten lies in `[line, line + 10)`. */
  lemma RoundUpToTenIsLeast(line: int, m: int)
    requires m % 10 == 0 && line <= m < line + 10
    ensures m == RoundUpToTen(line)
  {
  }

  /** Two lines round alike exactly when they lie in the same decade
      `10k+1 .. 10k+10`. */
  lemma SameDecade(a: int, b: int)
    ensures RoundUpToTen(a) == RoundUpToTen(b) <==> (a - 1) / 10 == (b - 1) / 10
  {
  }

  /** `path + ":" + str(rounded line) + "-" + rule + "-" + code line`. */
  function FingerprintKey(path: string, line: int, rule: string, codeLine: string): (k: string)
  {
    path + ":" + IntToString(RoundUpToTen(line)) + "-" + rule + "-" + codeLine
  }

  /** For one path, rule and line text, two keys agree exactly when the
      two lines lie in the same decade. */
  lemma KeyDependsOnDecade(path: string, rule: string, codeLine: string, a: int, b: int)
    ensures FingerprintKey(path, a, rule, codeLine) == FingerprintKey(path, b, rule, codeLine)
        <==> (a - 1) / 10 == (b - 1) / 10
  {
    SameDecade(a, b);
    var sa := IntToString(RoundUpToTen(a));
    var sb := IntToString(RoundUpToTen(b));
    var tail := "-" + rule + "-" + codeLine;
    var ka := FingerprintKey(path, a, rule, codeLine);
    var kb := FingerprintKey(path, b, rule, codeLine);
    assert ka == (path + ":") + sa + tail;
    assert kb == (path + ":") + sb + tail;
    if ka == kb {
      assert |sa| == |sb|;
      assert sa == ka[|path| + 1..|path| + 1 + |sa|];
      assert sb == kb[|path| + 1..|path| + 1 + |sb|];
      IntToStringInjective(RoundUpToTen(a), RoundUpToTen(b));
    }
  }
}
