/**
 * The GPU debug log: a write-once log level (read from the
 * `MISA_RIN_RUST_GPU_LOG` environment variable unless set first) and a
 * bounded FIFO buffer of formatted lines.
 */
module DebugLog {
  import opened Ints
  import opened Wrappers

  datatype LogLevel = Off | Warn | Info | Verbose

  /** The position of a level in the derived ordering `Off < Warn < Info < Verbose`. */
  function Rank(l: LogLevel): nat
  {
    match l
    case Off => 0
    case Warn => 1
    case Info => 2
    case Verbose => 3
  }

  predicate Below(a: LogLevel, b: LogLevel)
  {
    Rank(a) < Rank(b)
  }

  /** The derived order is a strict total order. */
  lemma BelowTotal(a: LogLevel, b: LogLevel)
    ensures a == b || Below(a, b) || Below(b, a)
    ensures !(Below(a, b) && Below(b, a))
  {
  }

  /** `set_level_from_u32`'s mapping. */
  function FromU32(raw: u32): (l: LogLevel)
    ensures raw >= 3 ==> l == Verbose
  {
    if raw == 0 then Off
    else if raw == 1 then Warn
    else if raw == 2 then Info
    else Verbose
  }

  /** Every level is recovered from its rank, and the mapping is monotone. */
  lemma FromU32RoundTrip(l: LogLevel, a: u32, b: u32)
    ensures FromU32(Rank(l)) == l
    ensures a <= 3 ==> Rank(FromU32(a)) == a
    ensures a <= b ==> !Below(FromU32(b), FromU32(a))
  {
  }

  const LOG_BUFFER_CAPACITY: nat := 512
  const PREFIX: string := "[misa-rin][rust][gpu] "

  /** The `char::is_whitespace` set that `str::trim` strips (Unicode `White_Space`). */
  predicate IsWhitespace(c: char)
  {
    ('\t' <= c <= '\r') || c == ' ' || c == '\U{85}' || c == '\U{A0}' || c == '\U{1680}' ||
    ('\U{2000}' <= c <= '\U{200A}') || c == '\U{2028}' || c == '\U{2029}' || c == '\U{202F}' ||
    c == '\U{205F}' || c == '\U{3000}'
  }

  predicate AllWhitespace(s: string)
  {
    forall i :: 0 <= i < |s| ==> IsWhitespace(s[i])
  }

  function TrimStart(s: string): (r: string)
    ensures |r| <= |s| && r == s[|s| - |r|..]
    ensures AllWhitespace(s[..|s| - |r|])
    ensures |r| > 0 ==> !IsWhitespace(r[0])
  {
    if |s| > 0 && IsWhitespace(s[0]) then
      var r := TrimStart(s[1..]);
      assert s[1..][..|s| - 1 - |r|] == s[1..|s| - |r|];
      r
    else s
  }

  function TrimEnd(s: string): (r: string)
    ensures |r| <= |s| && r == s[..|r|]
    ensures AllWhitespace(s[|r|..])
    ensures |r| > 0 ==> !IsWhitespace(r[|r| - 1])
  {
    if |s| > 0 && IsWhitespace(s[|s| - 1]) then TrimEnd(s[..|s| - 1]) else s
  }

  /** `str::trim`. */
  function Trim(s: string): string
  {
    TrimEnd(TrimStart(s))
  }

  function LowerChar(c: char): (d: char)
    ensures IsWhitespace(d) <==> IsWhitespace(c)
  {
    if 'A' <= c <= 'Z' then (c as int + 32) as char else c
  }

  /** `str::to_ascii_lowercase`. */
  function Lower(s: string): (r: string)
    ensures |r| == |s| && forall i :: 0 <= i < |s| ==> r[i] == LowerChar(s[i])
  {
    if |s| == 0 then [] else [LowerChar(s[0])] + Lower(s[1..])
  }

  /** The text `parse_level` matches: the input trimmed and lower-cased. */
  function Normalize(value: string): string
  {
    Lower(Trim(value))
  }

  /** The word table of `parse_level`; any other word means `Info`. */
  function Classify(word: string): LogLevel
  {
    if word == "" || word == "0" || word == "off" || word == "false" || word == "no" then Off
    else if word == "warn" || word == "warning" then Warn
    else if word == "info" || word == "1" || word == "on" || word == "true" || word == "yes" then Info
    else if word == "verbose" || word == "debug" || word == "2" then Verbose
    else Info
  }

  /** `parse_level`. */
  function ParseLevel(value: string): LogLevel
  {
    Classify(Normalize(value))
  }

  /** The level a process starts with when the variable is unset. */
  const DEFAULT_LEVEL: LogLevel := Off

  /** `read_level_from_env`; `None` stands for an unset (or non-Unicode) variable. */
  function ReadLevelFromEnv(env: Option<string>): LogLevel
  {
    if env.Some? then ParseLevel(env.value) else DEFAULT_LEVEL
  }

  /** The canonical name of each level, which `parse_level` accepts. */
  function Name(l: LogLevel): string
  {
    match l
    case Off => "off"
    case Warn => "warn"
    case Info => "info"
    case Verbose => "verbose"
  }

  lemma LowerIdempotent(s: string)
    ensures Lower(Lower(s)) == Lower(s)
  {
  }

  lemma {:induction false} TrimStartLower(s: string)
    ensures TrimStart(Lower(s)) == Lower(TrimStart(s))
    decreases |s|
  {
    if |s| > 0 {
      assert Lower(s)[1..] == Lower(s[1..]);
      TrimStartLower(s[1..]);
    }
  }

  lemma {:induction false} TrimEndLower(s: string)
    ensures TrimEnd(Lower(s)) == Lower(TrimEnd(s))
    decreases |s|
  {
    if |s| > 0 {
      assert Lower(s)[..|s| - 1] == Lower(s[..|s| - 1]);
      TrimEndLower(s[..|s| - 1]);
    }
  }

  /** The level name is case-insensitive: lower-casing the input first changes nothing. */
  lemma ParseIgnoresCase(value: string)
    ensures Normalize(Lower(value)) == Normalize(value)
    ensures ParseLevel(Lower(value)) == ParseLevel(value)
  {
    TrimStartLower(value);
    TrimEndLower(TrimStart(value));
    LowerIdempotent(Trim(value));
  }

  lemma {:induction false} TrimStartPadded(ws: string, t: string)
    requires AllWhitespace(ws)
    ensures TrimStart(ws + t) == TrimStart(t)
    decreases |ws|
  {
    if |ws| == 0 {
      assert ws + t == t;
    } else {
      assert (ws + t)[0] == ws[0];
      assert (ws + t)[1..] == ws[1..] + t;
      TrimStartPadded(ws[1..], t);
    }
  }

  lemma {:induction false} TrimEndPadded(t: string, ws: string)
    requires AllWhitespace(ws)
    ensures TrimEnd(t + ws) == TrimEnd(t)
    decreases |ws|
  {
    if |ws| == 0 {
      assert t + ws == t;
    } else {
      assert (t + ws)[|t + ws| - 1] == ws[|ws| - 1];
      assert (t + ws)[..|t + ws| - 1] == t + ws[..|ws| - 1];
      TrimEndPadded(t, ws[..|ws| - 1]);
    }
  }

  lemma {:induction false} TrimPaddedEnd(s: string, ws: string)
    requires AllWhitespace(ws)
    ensures Trim(s + ws) == Trim(s)
    decreases |s|
  {
    if |s| == 0 {
      assert s + ws == [] + ws;
      TrimStartPadded(ws, []);
    } else if IsWhitespace(s[0]) {
      assert (s + ws)[1..] == s[1..] + ws;
      TrimPaddedEnd(s[1..], ws);
    } else {
      TrimEndPadded(s, ws);
    }
  }

  /** Surrounding whitespace is ignored. */
  lemma ParseIgnoresPadding(before: string, value: string, after: string)
    requires AllWhitespace(before) && AllWhitespace(after)
    ensures Normalize(before + value + after) == Normalize(value)
    ensures ParseLevel(before + value + after) == ParseLevel(value)
  {
    var padded := before + value + after;
    assert padded == before + (value + after);
    TrimStartPadded(before, value + after);
    assert Trim(padded) == Trim(value + after);
    TrimPaddedEnd(value, after);
  }

  /** A word without surrounding whitespace or capitals is its own normal form. */
  lemma NormalWord(s: string)
    requires |s| > 0 && !IsWhitespace(s[0]) && !IsWhitespace(s[|s| - 1])
    requires forall i :: 0 <= i < |s| ==> !('A' <= s[i] <= 'Z')
    ensures Normalize(s) == s
  {
    assert TrimStart(s) == s;
    assert TrimEnd(s) == s;
    assert Lower(s) == s;
  }

  lemma ClassifyName(l: LogLevel)
    ensures Classify(Name(l)) == l
  {
  }

  /** Each level's name parses back to the level: the words and the ordering agree. */
  lemma NameRoundTrip(l: LogLevel)
    ensures ParseLevel(Name(l)) == l
  {
    ClassifyName(l);
    NormalWord(Name(l));
  }

  /** The logger's shared state: the `OnceLock` level and the line buffer. */
  datatype Logger = Logger(level: Option<LogLevel>, buffer: seq<string>)

  predicate Bounded(lg: Logger)
  {
    |lg.buffer| <= LOG_BUFFER_CAPACITY
  }

  /** `level()`: the set level, or the one read from `env` on first use, which is then fixed. */
  function CurrentLevel(lg: Logger, env: Option<string>): (r: (Logger, LogLevel))
    ensures r.0.level == Some(r.1) && r.0.buffer == lg.buffer
    ensures lg.level.Some? ==> r.0 == lg && r.1 == lg.level.value
  {
    if lg.level.Some? then (lg, lg.level.value)
    else
      var l := ReadLevelFromEnv(env);
      (lg.(level := Some(l)), l)
  }

  /** `set_level`: only the first write of the `OnceLock` takes effect. */
  function SetLevel(lg: Logger, l: LogLevel): (r: Logger)
    ensures r.buffer == lg.buffer
    ensures lg.level.None? ==> r.level == Some(l)
    ensures lg.level.Some? ==> r == lg
  {
    if lg.level.None? then lg.(level := Some(l)) else lg
  }

  function SetLevelFromU32(lg: Logger, raw: u32): (r: Logger)
    ensures lg.level.None? ==> r.level == Some(FromU32(raw))
    ensures lg.level.Some? ==> r == lg
  {
    SetLevel(lg, FromU32(raw))
  }

  /** The sequence counter starts at 1. */
  const SEQ_START: u64 := 1

  /** `next_seq`: the counter's value is handed out and the counter advanced; `fetch_add` wraps at 2^64. */
  function NextSeq(counter: u64): (r: (u64, u64))
    ensures r.0 == counter
    ensures counter + 1 < 0x1_0000_0000_0000_0000 ==> r.1 == counter + 1
    ensures counter + 1 == 0x1_0000_0000_0000_0000 ==> r.1 == 0
  {
    (counter, (counter + 1) % 0x1_0000_0000_0000_0000)
  }

  /** The numbers `n` successive calls of `next_seq` hand out, starting from `counter`. */
  function Issued(counter: u64, n: nat): (r: seq<u64>)
    ensures |r| == n
    decreases n
  {
    if n == 0 then [] else [NextSeq(counter).0] + Issued(NextSeq(counter).1, n - 1)
  }

  /** Until the counter wraps, successive calls hand out consecutive, hence distinct, numbers. */
  lemma {:induction false} IssuedConsecutive(counter: u64, n: nat)
    requires counter + n <= 0x1_0000_0000_0000_0000
    ensures forall i :: 0 <= i < n ==> Issued(counter, n)[i] == counter + i
    decreases n
  {
    if n > 0 {
      var next := NextSeq(counter).1;
      IssuedConsecutive(next, n - 1);
      forall i | 0 <= i < n ensures Issued(counter, n)[i] == counter + i {
        if i > 0 {
          assert Issued(counter, n)[i] == Issued(next, n - 1)[i - 1];
        }
      }
    }
  }

  /** Once a level is in place, neither setting nor reading changes it. */
  lemma LevelWriteOnce(lg: Logger, env: Option<string>, a: LogLevel, b: LogLevel)
    ensures SetLevel(SetLevel(lg, a), b) == SetLevel(lg, a)
    ensures CurrentLevel(SetLevel(lg, a), env).1 == (if lg.level.Some? then lg.level.value else a)
  {
  }

  /** The most recent `n` elements of `s`. */
  function KeepLast<T>(s: seq<T>, n: nat): (r: seq<T>)
    ensures |r| <= n && |r| <= |s|
  {
    if |s| <= n then s else s[|s| - n..]
  }

  /** `log`: a line below the current level is dropped; otherwise the oldest line makes room and the new one is appended. */
  function Log(lg: Logger, env: Option<string>, required: LogLevel, args: string): (r: Logger)
    ensures Below(CurrentLevel(lg, env).1, required) ==> r.buffer == lg.buffer
    ensures !Below(CurrentLevel(lg, env).1, required) ==>
      |r.buffer| > 0 && r.buffer[|r.buffer| - 1] == PREFIX + args
    ensures Bounded(lg) ==> Bounded(r)
    ensures r.level == CurrentLevel(lg, env).0.level
  {
    var (st, level) := CurrentLevel(lg, env);
    if Below(level, required) then st
    else
      var kept := if |st.buffer| >= LOG_BUFFER_CAPACITY then st.buffer[1..] else st.buffer;
      st.(buffer := kept + [PREFIX + args])
  }

  /** In a bounded buffer, a recorded line leaves exactly the latest `LOG_BUFFER_CAPACITY` lines. */
  lemma LogKeepsLatest(lg: Logger, env: Option<string>, required: LogLevel, args: string)
    requires Bounded(lg)
    requires !Below(CurrentLevel(lg, env).1, required)
    ensures Log(lg, env, required, args).buffer == KeepLast(lg.buffer + [PREFIX + args], LOG_BUFFER_CAPACITY)
  {
    var all := lg.buffer + [PREFIX + args];
    if |lg.buffer| == LOG_BUFFER_CAPACITY {
      assert all[|all| - LOG_BUFFER_CAPACITY..] == lg.buffer[1..] + [PREFIX + args];
    }
  }

  /** `pop_log_line`: the oldest line, if any. */
  function PopLogLine(lg: Logger): (r: (Option<string>, Logger))
    ensures r.0.None? <==> |lg.buffer| == 0
    ensures r.0.Some? ==> [r.0.value] + r.1.buffer == lg.buffer
    ensures r.1.level == lg.level
  {
    if |lg.buffer| == 0 then (None, lg)
    else (Some(lg.buffer[0]), lg.(buffer := lg.buffer[1..]))
  }

  /** Pops the whole buffer, oldest first. */
  function Drain(lg: Logger): seq<string>
    decreases |lg.buffer|
  {
    var (line, rest) := PopLogLine(lg);
    if line.None? then [] else [line.value] + Drain(rest)
  }

  /** Popping until empty yields the lines in the order they were recorded. */
  lemma {:induction false} DrainIsFifo(lg: Logger)
    ensures Drain(lg) == lg.buffer
    decreases |lg.buffer|
  {
    if |lg.buffer| > 0 {
      DrainIsFifo(PopLogLine(lg).1);
    }
  }
}
