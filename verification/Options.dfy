/** The routines of contrib/dhcp/common/options.c that read and write DHCP options in byte buffers. */
module Options {
  import opened Bytes
  import opened OptionValues
  import opened OptionHunks

  // ---- reading ----

  lemma {:induction false} SliceOfSlice(a: seq<byte>, from: nat, length: nat, i: nat, j: nat)
    requires from + length <= |a| && i <= j <= length
    ensures a[from..from + length][i..j] == a[from + i..from + j]
  {
    var x, y := a[from..from + length][i..j], a[from + i..from + j];
    forall k | 0 <= k < j - i ensures x[k] == y[k] {
      assert x[k] == a[from..from + length][i + k];
    }
  }

  /** A new option is recorded; a repeated one is joined to what was seen of it. */
  method Join(options: OptionValues.Options, code: byte, data: seq<byte>) returns (joined: OptionValues.Options)
    ensures joined == options[code := Value(options, code) + data]
  {
    if code !in options {
      joined := options[code := data];
      assert [] + data == data;
    } else {
      joined := options[code := options[code] + data];
    }
  }

  /** parse_option_buffer: reads the first `length` bytes of `buffer`; `known` are the options already seen. */
  method ParseOptionBuffer(buffer: array<byte>, from: nat, length: nat, known: OptionValues.Options)
    returns (parsed: Parsed)
    requires from + length <= buffer.Length
    ensures parsed == Parse(buffer[from..from + length], 0, known)
  {
    ghost var all := buffer[from..from + length];
    var options := known;
    var s := 0;
    while s < length && buffer[from + s] != END
      invariant 0 <= s <= length
      invariant Parse(all, 0, known) == Parse(all, s, options)
      decreases length - s
    {
      var code := buffer[from + s];
      if code == PAD {
        s := s + 1;
        continue;
      }
      if s + 2 > length || s + buffer[from + s + 1] + 2 > length {
        return Parsed(false, options);
      }
      var len := buffer[from + s + 1];
      var data := buffer[from + s + 2..from + s + 2 + len];
      SliceOfSlice(buffer[..], from, length, s + 2, s + 2 + len);
      options := Join(options, code, data);
      s := s + len + 2;
    }
    return Parsed(true, options);
  }

  // ---- writing ----

  /** A hunk behind the hunks `t`, byte by byte. */
  lemma {:induction false} HunkIsThere(b: seq<byte>, t: Hunks, h: Hunk)
    requires Plain(t) && |h.data| <= 255 && h.code != PAD && h.code != END
    requires |b| == Size(t) + 2 + |h.data| && b[..Size(t)] == Wire(t)
    requires b[Size(t)] == h.code && b[Size(t) + 1] == |h.data|
    requires forall j :: 0 <= j < |h.data| ==> b[Size(t) + 2..][j] == h.data[j]
    ensures b == Wire(More(t, h))
  {
  }

  /** Writes one hunk: `n` bytes of `value` from `ix` on, the last of them a NUL if `nul` says so. */
  method PutHunk(buffer: array<byte>, bufix: nat, code: byte, value: seq<byte>, ix: nat, n: nat, nul: bool)
    requires bufix + 2 + n <= buffer.Length && 1 <= n <= 255
    requires if nul then ix + n == |value| + 1 else ix + n <= |value|
    modifies buffer
    ensures buffer[bufix] == code && buffer[bufix + 1] == n
    ensures forall j {:trigger buffer[j]} :: bufix + 2 <= j < bufix + 2 + n ==>
              buffer[j] == if nul && j == bufix + 1 + n then 0 else value[ix + (j - bufix - 2)]
    ensures forall i :: 0 <= i < bufix ==> buffer[i] == old(buffer[i])
  {
    buffer[bufix] := code;
    buffer[bufix + 1] := n;
    var i := 0;
    var count := if nul then n - 1 else n;
    while i < count
      invariant 0 <= i <= count
      invariant forall j :: 0 <= j < bufix ==> buffer[j] == old(buffer[j])
      invariant buffer[bufix] == code && buffer[bufix + 1] == n
      invariant forall j {:trigger buffer[j]} :: bufix + 2 <= j < bufix + 2 + i ==>
                  buffer[j] == value[ix + (j - bufix - 2)]
    {
      buffer[bufix + 2 + i] := value[ix + i];
      i := i + 1;
    }
    if nul {
      buffer[bufix + 2 + n - 1] := 0;
    }
  }

  /** Writes the next hunk of an option behind the hunks `t`. */
  method AddHunk(buffer: array<byte>, bufix: nat, code: byte, value: seq<byte>, tto: bool, ix: nat, n: nat, total: nat,
                 ghost t: Hunks)
    requires total == if tto then |value| + 1 else |value|
    requires bufix + 2 + n <= buffer.Length && 1 <= n <= 255 && ix + n <= total
    requires Plain(t) && bufix == Size(t) && buffer[..bufix] == Wire(t) && code != PAD && code != END
    modifies buffer
    ensures buffer[..bufix + 2 + n] == Wire(More(t, Hunk(code, (if tto then value + [0] else value)[ix..ix + n])))
    ensures forall i :: 0 <= i < bufix ==> buffer[i] == old(buffer[i])
  {
    PutHunk(buffer, bufix, code, value, ix, n, tto && n == total - ix);
    assert buffer[..bufix] == Wire(t);
    ghost var b, data := buffer[..bufix + 2 + n], (if tto then value + [0] else value)[ix..ix + n];
    forall j | 0 <= j < n ensures b[bufix + 2..][j] == data[j] {
      assert b[bufix + 2..][j] == buffer[bufix + 2 + j];
    }
    HunkIsThere(b, t, Hunk(code, data));
  }

  /** The hunks of one option, or none if they would overflow the buffer. */
  ghost function WithOption(hs: Hunks, code: byte, full: seq<byte>, lim: Limits): Hunks {
    if Size(Split(hs, code, full, 0, lim)) <= lim.buflen then Split(hs, code, full, 0, lim) else hs
  }

  /** Of the option, the first `ix` bytes are in the hunks `t`. */
  ghost predicate Begun(hs: Hunks, code: byte, full: seq<byte>, lim: Limits, t: Hunks, ix: nat) {
    ix <= |full| && Split(hs, code, full, 0, lim) == Split(t, code, full, ix, lim)
  }

  lemma {:induction false} Overflows(hs: Hunks, code: byte, full: seq<byte>, lim: Limits, u: Hunks, ix: nat)
    requires Begun(hs, code, full, lim, u, ix) && Size(u) > lim.buflen
    ensures WithOption(hs, code, full, lim) == hs
  {
    SplitIs(u, code, full, ix, lim, code);
  }

  lemma {:induction false} Fits(hs: Hunks, code: byte, full: seq<byte>, lim: Limits, t: Hunks)
    requires Begun(hs, code, full, lim, t, |full|) && Size(t) <= lim.buflen
    ensures WithOption(hs, code, full, lim) == t
  {
  }

  /** The size of the next hunk, as store_options works it out. */
  method NextHunk(length: nat, bufix: nat, lim: Limits) returns (incr: nat)
    requires length > 0
    ensures incr == Chunk(length, bufix, lim.first, lim.second)
  {
    incr := if length > 255 then 255 else length;
    if bufix < lim.first && bufix + incr > lim.first {
      incr := lim.first - bufix;
    } else if bufix < lim.second && bufix + incr > lim.second {
      incr := lim.second - bufix;
    }
  }

  /** The bytes stored for a value, with a NUL behind it or not. */
  ghost function Terminated(value: seq<byte>, tto: bool): seq<byte> {
    if tto then value + [0] else value
  }

  /** The buffer begins with the hunks `hs`. */
  ghost predicate Holds(buffer: array<byte>, hs: Hunks)
    reads buffer
  {
    Plain(hs) && Size(hs) <= buffer.Length && buffer[..Size(hs)] == Wire(hs)
  }

  /** One turn of the inner loop of store_options: the next hunk of an option, unless it would overflow the buffer. */
  method StoreHunk(buffer: array<byte>, bufix: nat, code: byte, value: seq<byte>, tto: bool, ix: nat, total: nat,
                   lim: Limits, ghost hs: Hunks, ghost t: Hunks, ghost full: seq<byte>)
    returns (incr: nat, fits: bool, ghost u: Hunks)
    requires lim.buflen <= buffer.Length && full == Terminated(value, tto) && ix < total == |full|
    requires Holds(buffer, t) && bufix == Size(t) && code != PAD && code != END
    requires Holds(buffer, hs) && Size(hs) <= bufix
    modifies buffer
    ensures 0 < incr <= total - ix && Size(u) == bufix + 2 + incr
    ensures Begun(hs, code, full, lim, t, ix) ==> Begun(hs, code, full, lim, u, ix + incr)
    ensures fits == (Size(u) <= lim.buflen)
    ensures Holds(buffer, hs) && (fits ==> Holds(buffer, u))
  {
    incr := NextHunk(total - ix, bufix, lim);
    u := More(t, Hunk(code, full[ix..ix + incr]));
    fits := bufix + 2 + incr <= lim.buflen;
    if fits {
      AddHunk(buffer, bufix, code, value, tto, ix, incr, total, t);
      assert buffer[..Size(hs)] == old(buffer[..Size(hs)]);
    }
  }

  /** The inner loop of store_options. */
  method StoreOption(buffer: array<byte>, start: nat, code: byte, value: seq<byte>, tto: bool, lim: Limits,
                     ghost hs: Hunks, ghost full: seq<byte>)
    returns (bufix: nat)
    requires lim.buflen <= buffer.Length && value != [] && full == Terminated(value, tto)
    requires Holds(buffer, hs) && start == Size(hs) && code != PAD && code != END
    modifies buffer
    ensures Holds(buffer, WithOption(hs, code, full, lim)) && bufix == Size(WithOption(hs, code, full, lim))
  {
    var total: nat := if tto then |value| + 1 else |value|;
    ghost var t := hs;
    bufix := start;
    var ix := 0;
    while ix < total
      invariant ix <= total && Size(hs) <= bufix == Size(t)
      invariant Begun(hs, code, full, lim, t, ix)
      invariant Holds(buffer, t) && Holds(buffer, hs)
      invariant ix > 0 ==> Size(t) <= lim.buflen
    {
      var incr, fits, u := StoreHunk(buffer, bufix, code, value, tto, ix, total, lim, hs, t, full);
      if !fits {
        Overflows(hs, code, full, lim, u, ix + incr);
        return start;
      }
      t := u;
      ix := ix + incr;
      bufix := bufix + 2 + incr;
    }
    Fits(hs, code, full, lim, t);
  }

  /** store_options. Returns the number of bytes written. */
  method StoreOptions(buffer: array<byte>, src: Source, priority: seq<byte>, lim: Limits) returns (bufix: nat)
    requires lim.buflen <= buffer.Length
    requires PAD !in priority && END !in priority
    modifies buffer
    ensures var hs := Store(src, priority, |priority|, lim).hunks; Holds(buffer, hs) && bufix == Size(hs)
    ensures bufix == 0 || bufix <= lim.buflen
  {
    bufix := 0;
    var stored: set<byte> := {};
    var i := 0;
    while i < |priority|
      invariant 0 <= i <= |priority|
      invariant stored == Store(src, priority, i, lim).tried
      invariant var hs := Store(src, priority, i, lim).hunks; Holds(buffer, hs) && bufix == Size(hs)
    {
      var code := priority[i];
      if code in src.options && code !in stored {
        stored := stored + {code};
        var value := src.options[code];
        if value != [] {
          bufix := StoreOption(buffer, bufix, code, value, src.terminate && code in src.text, lim,
                               Store(src, priority, i, lim).hunks, src.Full(code));
        }
      }
      i := i + 1;
    }
    StoreIs(src, priority, |priority|, lim, 0);
  }

  // ---- whole packets ----

  const COOKIE: seq<byte> := [99, 130, 83, 99]
  const FIXED_NON_UDP: nat := 236
  const MAIN_BUFFER_SIZE: nat := 298
  const OPTION_OVERLOAD: byte := 52

  /** The limits cons_options gives store_options when no option may go anywhere but into the options field. */
  const MAIN_LIMITS: Limits := Limits(MAIN_BUFFER_SIZE - 7, MAIN_BUFFER_SIZE, MAIN_BUFFER_SIZE)

  /** The cookie, `size` bytes of options and the end marker. */
  method PutField(out: array<byte>, buffer: array<byte>, size: nat)
    requires out != buffer && size <= buffer.Length && size + 5 <= out.Length
    modifies out
    ensures out[..size + 5] == COOKIE + buffer[..size] + [END]
  {
    out[0], out[1], out[2], out[3] := 99, 130, 83, 99;
    var i := 0;
    while i < size
      invariant 0 <= i <= size && out[..4 + i] == COOKIE + buffer[..i]
    {
      out[4 + i] := buffer[i];
      i := i + 1;
    }
    out[4 + size] := END;
  }

  /** What a receiver reads behind the cookie, up to anywhere behind the end marker. */
  lemma {:induction false} FieldIsRead(field: seq<byte>, hs: Hunks, n: nat)
    requires Plain(hs) && n <= |field| && Size(hs) + 5 <= n && field[..Size(hs) + 5] == COOKIE + Wire(hs) + [END]
    ensures field[..4] == COOKIE && Parse(field[4..n], 0, map[]) == Parsed(true, Read(hs))
  {
    var all := field[..Size(hs) + 5];
    assert field[..4] == all[..4];
    assert field[4..n][..Size(hs)] == all[4..4 + Size(hs)] == Wire(hs);
    assert field[4..n][Size(hs)] == all[4 + Size(hs)];
    ParseEnds(field[4..n], hs);
  }

  /**
    * cons_options as the client calls it: a packet of the usual size, no overloading. Whatever the options, they
    * leave room for the end marker. A receiver that looks at least that far reads back what was stored.
    */
  method ConsOptions(out: array<byte>, src: Source, priority: seq<byte>) returns (length: nat)
    requires out.Length >= MAIN_BUFFER_SIZE && PAD !in priority && END !in priority
    modifies out
    ensures var hs := Store(src, priority, |priority|, MAIN_LIMITS).hunks;
            && Plain(hs)
            && length == FIXED_NON_UDP + Size(hs) + 5 <= FIXED_NON_UDP + MAIN_BUFFER_SIZE
            && out[..Size(hs) + 5] == COOKIE + Wire(hs) + [END]
            && (forall n :: Size(hs) + 5 <= n <= out.Length ==> Parse(out[4..n], 0, map[]) == Parsed(true, Read(hs)))
  {
    var buffer := new byte[4096](_ => 0);
    var size := StoreOptions(buffer, src, priority, MAIN_LIMITS);
    ghost var hs := Store(src, priority, |priority|, MAIN_LIMITS).hunks;
    PutField(out, buffer, size);
    length := FIXED_NON_UDP + size + 5;
    forall n | Size(hs) + 5 <= n <= out.Length ensures Parse(out[4..n], 0, map[]) == Parsed(true, Read(hs)) {
      FieldIsRead(out[..], hs, n);
      assert out[..][4..n] == out[4..n];
    }
  }

  /** The first byte of the overload option; zero without one. */
  function Overload(options: OptionValues.Options): nat {
    if Value(options, OPTION_OVERLOAD) == [] then 0 else options[OPTION_OVERLOAD][0]
  }

  /** The options with those of the file and sname fields, as far as the overload option says that there are any. */
  function Overloaded(main: Parsed, file: seq<byte>, sname: seq<byte>): Parsed {
    var more := if main.valid && Overload(main.options) % 2 == 1 then Parse(file, 0, main.options) else main;
    if main.valid && (Overload(more.options) / 2) % 2 == 1 then Parse(sname, 0, more.options) else more
  }

  /** Option 52 of RFC 2132: 1 stands for the file field, 2 for the sname field, 3 for both; without it, neither. */
  lemma {:induction false} OverloadSays(main: Parsed, file: seq<byte>, sname: seq<byte>)
    requires main.valid
    ensures var all, both := Overloaded(main, file, sname), Parse(file, 0, main.options);
            && (Value(main.options, OPTION_OVERLOAD) == [] ==> all == main)
            && (Value(main.options, OPTION_OVERLOAD) != [] ==>
                  var b := main.options[OPTION_OVERLOAD][0];
                  && (b == 0 ==> all == main)
                  && (b == 2 ==> all == Parse(sname, 0, main.options))
                  && (b == 1 && Value(both.options, OPTION_OVERLOAD) == [1] ==> all == both)
                  && (b == 3 && Value(both.options, OPTION_OVERLOAD) == [3] ==> all == Parse(sname, 0, both.options)))
  {
  }

  /** The last part of parse_options. */
  method ParseFields(main: Parsed, file: array<byte>, sname: array<byte>) returns (parsed: Parsed)
    ensures parsed == Overloaded(main, file[..], sname[..])
  {
    parsed := main;
    assert file[0..file.Length] == file[..] && sname[0..sname.Length] == sname[..];
    if main.valid && OPTION_OVERLOAD in main.options {
      if Overload(main.options) % 2 == 1 {
        parsed := ParseOptionBuffer(file, 0, file.Length, parsed.options);
      }
      if (Overload(parsed.options) / 2) % 2 == 1 {
        parsed := ParseOptionBuffer(sname, 0, sname.Length, parsed.options);
      }
    }
  }

  /**
    * parse_options: the options field, and the file and sname fields if an option says that they hold options too. The
    * packet ends `length` bytes into the options field, or before it; the cookie is looked for in any case, and nothing
    * is read behind the end.
    */
  method ParseOptions(options: array<byte>, length: int, file: array<byte>, sname: array<byte>)
    returns (parsed: Parsed)
    requires 4 <= options.Length && length <= options.Length
    ensures options[..4] != COOKIE ==> parsed == Parsed(false, map[])
    ensures options[..4] == COOKIE ==>
              parsed == Overloaded(Parse(if length > 4 then options[4..length] else [], 0, map[]), file[..], sname[..])
  {
    if options[0] != 99 || options[1] != 130 || options[2] != 83 || options[3] != 99 {
      return Parsed(false, map[]);
    }
    parsed := ParseOptionBuffer(options, 4, if length > 4 then length - 4 else 0, map[]);
    parsed := ParseFields(parsed, file, sname);
  }
}
