/** The Defender's configuration and the options that set it (option.go). */
module Options {
  import opened Foreign

  /** The two fields of a Defender: the exempt field names and the policy. */
  datatype Config = Config(skipFields: seq<string>, policy: Sanitizer)

  /** An Option closure; each one overwrites one field of the Defender. */
  datatype Option =
    | SetSkipFields(fields: seq<string>)
    | SetPolicy(newPolicy: Sanitizer)

  /** What running one option closure does to the configuration. */
  function Apply(c: Config, o: Option): (r: Config)
    ensures o.SetSkipFields? ==> r.skipFields == o.fields && r.policy == c.policy
    ensures o.SetPolicy? ==> r.policy == o.newPolicy && r.skipFields == c.skipFields
  {
    match o
    case SetSkipFields(ss) => c.(skipFields := ss)
    case SetPolicy(p) => c.(policy := p)
  }

  /** Running the options from left to right, as NewDefender's loop does. */
  function ApplyAll(c: Config, opts: seq<Option>): Config
    decreases |opts|
  {
    if opts == [] then c else ApplyAll(Apply(c, opts[0]), opts[1..])
  }

  /** The fields of the last SetSkipFields in opts, or dflt if there is none. */
  function LastSkipFields(opts: seq<Option>, dflt: seq<string>): seq<string>
    decreases |opts|
  {
    if opts == [] then dflt
    else if opts[|opts| - 1].SetSkipFields? then opts[|opts| - 1].fields
    else LastSkipFields(opts[..|opts| - 1], dflt)
  }

  /** The policy of the last SetPolicy in opts, or dflt if there is none. */
  function LastPolicy(opts: seq<Option>, dflt: Sanitizer): Sanitizer
    decreases |opts|
  {
    if opts == [] then dflt
    else if opts[|opts| - 1].SetPolicy? then opts[|opts| - 1].newPolicy
    else LastPolicy(opts[..|opts| - 1], dflt)
  }

  /** Applying one more option after a list is applying it to the list's result. */
  lemma {:induction false} ApplyAllSnoc(c: Config, opts: seq<Option>, o: Option)
    ensures ApplyAll(c, opts + [o]) == Apply(ApplyAll(c, opts), o)
    decreases |opts|
  {
    if opts == [] {
      assert [] + [o] == [o];
    } else {
      assert (opts + [o])[1..] == opts[1..] + [o];
      ApplyAllSnoc(Apply(c, opts[0]), opts[1..], o);
    }
  }

  /** Last writer wins: each field ends up as the last option touching it set it,
      and keeps its initial value when no option touches it. */
  lemma {:induction false} ApplyAllLastWriterWins(c: Config, opts: seq<Option>)
    ensures ApplyAll(c, opts).skipFields == LastSkipFields(opts, c.skipFields)
    ensures ApplyAll(c, opts).policy == LastPolicy(opts, c.policy)
    decreases |opts|
  {
    if opts != [] {
      var init, last := opts[..|opts| - 1], opts[|opts| - 1];
      assert opts == init + [last];
      ApplyAllSnoc(c, init, last);
      ApplyAllLastWriterWins(c, init);
    }
  }

  /** DefaultDefender appends SetSkipFields("password") after the caller's options, so
      the skip list is exactly ["password"] whatever they say, and the policy is what
      the caller's options alone make of it. */
  lemma DefaultSkipFieldsArePassword(c: Config, opts: seq<Option>)
    ensures ApplyAll(c, opts + [SetSkipFields(["password"])]).skipFields == ["password"]
    ensures ApplyAll(c, opts + [SetSkipFields(["password"])]).policy == LastPolicy(opts, c.policy)
  {
    ApplyAllSnoc(c, opts, SetSkipFields(["password"]));
    ApplyAllLastWriterWins(c, opts);
  }
}
