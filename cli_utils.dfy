/** `getOptionsFromArgv` of `cli-utils.ts`: the command line is read as a token
    stream in which every `--kebab-flag` token names an option (its camelCase
    form) and the token after it, if any, gives the option's value. */
module CliUtils {
  import opened StringUtils

  /** What an option can hold: a boolean or the raw text of the next token. */
  datatype OptionValue = BoolValue(b: bool) | StringValue(s: string)

  /** A token that names an option. (The empty token is skipped first in the
      source; it does not start with `--` either.) */
  predicate IsFlag(arg: string) {
    arg != "" && StartsWith(arg, "--")
  }

  /** `kebabCaseToCamelCase(arg.replace("--", ""))`: the first `--`, which is the
      token's prefix, is dropped and the rest converted to camelCase. */
  function FlagKey(arg: string): string
    requires IsFlag(arg)
  {
    KebabCaseToCamelCase(arg[2..])
  }

  /** The value given to the flag at position `i`: `true` when no token follows
      or the next token is itself a flag; the boolean it spells when the next
      token is exactly `"true"` or `"false"`; otherwise that token verbatim. */
  function ValueAfter(argv: seq<string>, i: nat): (v: OptionValue)
    requires i < |argv|
    ensures i + 1 == |argv| ==> v == BoolValue(true)
    ensures i + 1 < |argv| && StartsWith(argv[i + 1], "--") ==> v == BoolValue(true)
    ensures i + 1 < |argv| && !StartsWith(argv[i + 1], "--") ==>
      v == (if argv[i + 1] == "true" then BoolValue(true)
            else if argv[i + 1] == "false" then BoolValue(false)
            else StringValue(argv[i + 1]))
  {
    if i + 1 >= |argv| || StartsWith(argv[i + 1], "--") then BoolValue(true)
    else if argv[i + 1] == "true" || argv[i + 1] == "false" then BoolValue(argv[i + 1] == "true")
    else StringValue(argv[i + 1])
  }

  /** The options object after the first `n` tokens have been read. */
  function OptionsAfter(argv: seq<string>, n: nat): map<string, OptionValue>
    requires n <= |argv|
  {
    if n == 0 then map[]
    else if IsFlag(argv[n - 1]) then OptionsAfter(argv, n - 1)[FlagKey(argv[n - 1]) := ValueAfter(argv, n - 1)]
    else OptionsAfter(argv, n - 1)
  }

  /** `k` is the key of the flag at position `i`, and no later flag has key `k`. */
  ghost predicate LastFlagFor(argv: seq<string>, n: nat, i: int, k: string)
    requires n <= |argv|
  {
    0 <= i < n && IsFlag(argv[i]) && FlagKey(argv[i]) == k
    && forall j :: i < j < n && IsFlag(argv[j]) ==> FlagKey(argv[j]) != k
  }

  /** The keys are exactly the keys of the flags read, and each holds the value
      given to its last occurrence. */
  lemma {:induction false} OptionsAfterMeaning(argv: seq<string>, n: nat)
    requires n <= |argv|
    ensures forall k :: k in OptionsAfter(argv, n) <==>
      exists i :: 0 <= i < n && IsFlag(argv[i]) && FlagKey(argv[i]) == k
    ensures forall i, k :: LastFlagFor(argv, n, i, k) ==>
      k in OptionsAfter(argv, n) && OptionsAfter(argv, n)[k] == ValueAfter(argv, i)
  {
    if n > 0 {
      OptionsAfterMeaning(argv, n - 1);
      forall i, k | LastFlagFor(argv, n, i, k)
        ensures k in OptionsAfter(argv, n) && OptionsAfter(argv, n)[k] == ValueAfter(argv, i)
      {
        if i < n - 1 {
          assert LastFlagFor(argv, n - 1, i, k);
        }
      }
    }
  }

  /** `getOptionsFromArgv(argv)`. */
  method GetOptionsFromArgv(argv: seq<string>) returns (options: map<string, OptionValue>)
    ensures options == OptionsAfter(argv, |argv|)
    ensures forall k :: k in options <==>
      exists i :: 0 <= i < |argv| && IsFlag(argv[i]) && FlagKey(argv[i]) == k
    ensures forall i, k :: LastFlagFor(argv, |argv|, i, k) ==> k in options && options[k] == ValueAfter(argv, i)
  {
    options := map[];
    for i := 0 to |argv|
      invariant options == OptionsAfter(argv, i)
    {
      var arg := argv[i];
      if arg == "" {
        continue;
      }
      if StartsWith(arg, "--") {
        var key := KebabCaseToCamelCase(arg[2..]);
        var value;
        if i + 1 == |argv| || StartsWith(argv[i + 1], "--") {
          value := BoolValue(true);
        } else if argv[i + 1] == "true" || argv[i + 1] == "false" {
          value := BoolValue(argv[i + 1] == "true");
        } else {
          value := StringValue(argv[i + 1]);
        }
        options := options[key := value];
      }
    }
    OptionsAfterMeaning(argv, |argv|);
  }

  /** The shape of the command line in the source's test, `--dry-run true
      --interactive`: both flags become keys with the value `true`, and the
      `true` after the first flag is read as its value and never as a key.
      (`dry-run` becomes `dryRun` by `DryRunExample`.) */
  lemma FlagTrueFlagExample(a: string, b: string)
    ensures OptionsAfter(["--" + a, "true", "--" + b], 3)
      == map[KebabCaseToCamelCase(a) := BoolValue(true), KebabCaseToCamelCase(b) := BoolValue(true)]
  {
    var argv := ["--" + a, "true", "--" + b];
    assert IsFlag(argv[0]) && argv[0][2..] == a;
    assert IsFlag(argv[2]) && argv[2][2..] == b;
    assert argv[1][..2] == "tr";
    assert OptionsAfter(argv, 1) == map[KebabCaseToCamelCase(a) := BoolValue(true)];
    assert OptionsAfter(argv, 2) == OptionsAfter(argv, 1);
  }
}
