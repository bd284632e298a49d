/** The canonical form of an ARC boot device name. */
module DeviceNames {
  import opened FatFormat
  import opened ArcNames

  function UpperChar(c: char): char {
    if 'a' <= c <= 'z' then (c as int - 'a' as int + 'A' as int) as char else c
  }

  // Equality up to case.
  predicate Alike(a: string, b: string) {
    |a| == |b| && forall i :: 0 <= i < |a| ==> UpperChar(a[i]) == UpperChar(b[i])
  }

  // Character by character the same, or the two cases of one letter.
  lemma AlikeIs(a: string, b: string)
    ensures Alike(a, b) <==>
            |a| == |b| && forall i :: 0 <= i < |a| ==>
              || a[i] == b[i]
              || ('a' <= a[i] <= 'z' && b[i] as int == a[i] as int - 0x20)
              || ('a' <= b[i] <= 'z' && a[i] as int == b[i] as int - 0x20)
  {
    if Alike(a, b) {
      forall i | 0 <= i < |a|
        ensures UpperChar(a[i]) as int == UpperChar(b[i]) as int
      {
      }
    }
  }

  // The place of a token among the match strings; their number if it is not there.
  method MatchToken(token: string, types: seq<string>) returns (index: nat)
    ensures index <= |types| && (index < |types| ==> Alike(types[index], token))
    ensures forall j :: 0 <= j < index ==> !Alike(types[j], token)
  {
    index := 0;
    while index < |types|
      invariant index <= |types| && forall j :: 0 <= j < index ==> !Alike(types[j], token)
    {
      var i := 0;
      while i < |types[index]| && i < |token| && UpperChar(types[index][i]) == UpperChar(token[i])
        invariant i <= |types[index]| && i <= |token|
        invariant forall j :: 0 <= j < i ==> UpperChar(types[index][j]) == UpperChar(token[j])
      {
        i := i + 1;
      }
      if i == |types[index]| && i == |token| {
        return;
      }
      index := index + 1;
    }
  }

  predicate IsAdapter(t: Token) {
    Alike("eisa", t.name) || Alike("scsi", t.name) || Alike("multi", t.name)
  }

  const DEFAULT_PARTITION := Token("partition", 1)

  // A device: the canonical tokens and the NT name prefix.
  datatype Device = Device(tokens: seq<Token>, prefix: string)

  /** What a list of tokens names: one or more adapters, then a CD-ROM with its fdisk, or
      a disk with an fdisk, or with an rdisk and a partition, partition one by default. */
  function DeviceOf(ts: seq<Token>): Option<Device> {
    if ts == [] || !IsAdapter(ts[0]) then None else AfterAdapters(ts, 1)
  }

  function AfterAdapters(ts: seq<Token>, n: nat): Option<Device>
    decreases |ts| - n
  {
    if n >= |ts| then None
    else if IsAdapter(ts[n]) then AfterAdapters(ts, n + 1)
    else DeviceAt(ts, n)
  }

  function DeviceAt(ts: seq<Token>, n: nat): Option<Device>
    requires n < |ts|
  {
    if |ts| < n + 2 then None
    else if Alike("disk", ts[n].name) then
      if Alike("rdisk", ts[n + 1].name) then
        if |ts| == n + 2 then Some(Device(ts + [DEFAULT_PARTITION], "\\Device\\Harddisk"))
        else if |ts| == n + 3 && Alike("partition", ts[n + 2].name) then Some(Device(ts, "\\Device\\Harddisk"))
        else None
      else if Alike("fdisk", ts[n + 1].name) && |ts| == n + 2 then Some(Device(ts, "\\Device\\Floppy"))
      else None
    else if Alike("cdrom", ts[n].name) && Alike("fdisk", ts[n + 1].name)
        && |ts| == n + 2 then Some(Device(ts, "\\Device\\CDRom"))
    else None
  }

  // n adapters and then a controller with its unit, spelled out.
  ghost predicate DeviceForm(ts: seq<Token>, n: nat, d: Device) {
    && 1 <= n && n + 2 <= |ts|
    && (forall k :: 0 <= k < n ==> IsAdapter(ts[k]))
    && var partitions := if |ts| == n + 2 then [Token("partition", 1)] else [];
       var names := (ts[n].name, ts[n + 1].name);
       || (Alike("disk", names.0) && Alike("rdisk", names.1) && d == Device(ts + partitions, "\\Device\\Harddisk")
           && (|ts| == n + 2 || (|ts| == n + 3 && Alike("partition", ts[n + 2].name))))
       || (Alike("disk", names.0) && Alike("fdisk", names.1) && |ts| == n + 2 && d == Device(ts, "\\Device\\Floppy"))
       || (Alike("cdrom", names.0) && Alike("fdisk", names.1) && |ts| == n + 2 && d == Device(ts, "\\Device\\CDRom"))
  }

  lemma Unlike(name: string)
    ensures Alike("disk", name) || Alike("cdrom", name) ==> !IsAdapter(Token(name, 0))
    ensures !(Alike("disk", name) && Alike("cdrom", name)) && !(Alike("rdisk", name) && Alike("fdisk", name))
  {
    if |name| > 0 {
      assert UpperChar("disk"[0]) == 'D' && UpperChar("cdrom"[0]) == 'C' && UpperChar("eisa"[0]) == 'E';
      assert UpperChar("scsi"[0]) == 'S' && UpperChar("multi"[0]) == 'M';
      assert UpperChar("rdisk"[0]) == 'R' && UpperChar("fdisk"[0]) == 'F';
    }
  }

  lemma {:induction false} AfterAdaptersForm(ts: seq<Token>, n: nat, d: Device)
    requires 1 <= n <= |ts| && forall k :: 0 <= k < n ==> IsAdapter(ts[k])
    ensures AfterAdapters(ts, n) == Some(d) <==> exists m: nat :: DeviceForm(ts, m, d)
    decreases |ts| - n
  {
    hide Alike;
    if n < |ts| && IsAdapter(ts[n]) {
      AfterAdaptersForm(ts, n + 1, d);
    } else if n < |ts| {
      Unlike(ts[n].name);
      if n + 1 < |ts| {
        Unlike(ts[n + 1].name);
      }
      forall m: nat | DeviceForm(ts, m, d)
        ensures m == n
      {
        Unlike(ts[m].name);
        assert !IsAdapter(ts[m]);
      }
      assert ts + [] == ts;
      assert DeviceForm(ts, n, d) <==> DeviceAt(ts, n) == Some(d);
    } else {
      forall m: nat
        ensures !DeviceForm(ts, m, d)
      {
        if m + 2 <= |ts| {
          Unlike(ts[m].name);
        }
      }
    }
  }

  /** Which names are devices: one or more adapters, then a hard disk with its unit and a
      partition, the first one by default, or a floppy or a CD-ROM with its unit; each has
      its NT prefix. */
  lemma DeviceForms(ts: seq<Token>, d: Device)
    ensures DeviceOf(ts) == Some(d) <==> exists n: nat :: DeviceForm(ts, n, d)
  {
    hide AfterAdapters, Alike;
    if ts != [] && IsAdapter(ts[0]) {
      AfterAdaptersForm(ts, 1, d);
    }
  }

  lemma {:induction false} AfterAdaptersTwice(ts: seq<Token>, n: nat)
    ensures AfterAdapters(ts, n).Some? ==>
              && ts <= AfterAdapters(ts, n).value.tokens
              && AfterAdapters(AfterAdapters(ts, n).value.tokens, n) == AfterAdapters(ts, n)
    decreases |ts| - n
  {
    if n < |ts| && IsAdapter(ts[n]) {
      AfterAdaptersTwice(ts, n + 1);
    }
  }

  lemma DeviceTwice(ts: seq<Token>)
    ensures DeviceOf(ts).Some? ==> DeviceOf(DeviceOf(ts).value.tokens) == DeviceOf(ts)
  {
    AfterAdaptersTwice(ts, 1);
  }

  lemma {:induction false} AfterAdaptersFits(ts: seq<Token>, n: nat)
    requires Units32(ts)
    ensures AfterAdapters(ts, n).Some? ==> Units32(AfterAdapters(ts, n).value.tokens)
    ensures AfterAdapters(ts, n).Some? && PlainNames(ts) ==> PlainNames(AfterAdapters(ts, n).value.tokens)
    decreases |ts| - n
  {
    if n < |ts| && IsAdapter(ts[n]) {
      AfterAdaptersFits(ts, n + 1);
    }
  }

  lemma {:induction false} AddedTokens(ts: seq<Token>, n: nat)
    ensures AfterAdapters(ts, n).Some? ==> AfterAdapters(ts, n).value.tokens in {ts, ts + [DEFAULT_PARTITION]}
    decreases |ts| - n
  {
    if n < |ts| && IsAdapter(ts[n]) {
      AddedTokens(ts, n + 1);
    }
  }

  lemma PlainAdded(ts: seq<Token>, us: seq<Token>)
    requires PlainNames(ts) && us in {ts, ts + [DEFAULT_PARTITION]}
    ensures Plain(us) <==> forall k :: 0 <= k < |ts| ==> ReadsBack(ts[k].unit)
  {
    if Plain(us) {
      assert forall k :: 0 <= k < |ts| ==> us[k] == ts[k];
    }
  }

  // The names of a device, put together.
  lemma NamesFrom(s: string, d: Device)
    requires DeviceOf(Tokens(s)) == Some(d)
    ensures Units32(d.tokens) && NamesOf(s) == Some(Names(PrintAll(d.tokens), d.prefix))
  {
    TokensFit(s);
    AfterAdaptersFits(Tokens(s), 1);
  }

  // A canonical name and an NT prefix.
  datatype Names = Names(canonical: string, prefix: string)

  ghost function NamesOf(s: string): Option<Names> {
    TokensFit(s);
    AfterAdaptersFits(Tokens(s), 1);
    match DeviceOf(Tokens(s))
    case None => None
    case Some(d) => Some(Names(PrintAll(d.tokens), d.prefix))
  }

  // Which device tokens name does not depend on their units.
  lemma {:induction false} AfterAdaptersNames(ts: seq<Token>, us: seq<Token>, n: nat, prefix: string)
    requires |us| == |ts| && forall k :: 0 <= k < |ts| ==> us[k].name == ts[k].name
    requires AfterAdapters(ts, n) == Some(Device(ts, prefix))
    ensures AfterAdapters(us, n) == Some(Device(us, prefix))
    decreases |ts| - n
  {
    if n < |ts| && IsAdapter(ts[n]) {
      AfterAdaptersNames(ts, us, n + 1, prefix);
    }
  }

  /** A canonical name, the default partition included, is its own canonical name if and
      only if every unit in the name reads back. */
  lemma CanonicalIsFixed(s: string)
    requires NamesOf(s).Some?
    ensures NamesOf(NamesOf(s).value.canonical) == NamesOf(s) <==>
            forall k :: 0 <= k < |Tokens(s)| ==> ReadsBack(Tokens(s)[k].unit)
  {
    hide Tokens, PrintAll, AfterAdapters, IsAdapter, NamesOf, Reread, Plain;
    TokensFit(s);
    NamesSome(s);
    var d := DeviceOf(Tokens(s)).value;
    NamesFrom(s, d);
    DeviceTwice(Tokens(s));
    AfterAdaptersFits(Tokens(s), 1);
    AddedTokens(Tokens(s), 1);
    PlainAdded(Tokens(s), d.tokens);
    PrintedTokens(d.tokens);
    PrintedAs(d.tokens);
    var us := RereadAll(d.tokens);
    RereadNames(d.tokens);
    DeviceFromNames(d.tokens, us, d.prefix);
    NamesFrom(PrintAll(d.tokens), Device(us, d.prefix));
    if PrintAll(us) == PrintAll(d.tokens) {
      PrintInjective(us, d.tokens);
    }
  }

  lemma NamesSome(s: string)
    ensures NamesOf(s).Some? <==> DeviceOf(Tokens(s)).Some?
  {
  }

  lemma RereadNames(ts: seq<Token>)
    requires Units32(ts)
    ensures forall k :: 0 <= k < |ts| ==> RereadAll(ts)[k].name == ts[k].name
  {
  }

  lemma DeviceFromNames(ts: seq<Token>, us: seq<Token>, prefix: string)
    requires |us| == |ts| && forall k :: 0 <= k < |ts| ==> us[k].name == ts[k].name
    requires DeviceOf(ts) == Some(Device(ts, prefix))
    ensures DeviceOf(us) == Some(Device(us, prefix))
  {
    AfterAdaptersNames(ts, us, 1, prefix);
  }

  // The tokens read so far and those still to come make up the name.
  ghost predicate ReadSoFar(s: string, read: seq<Token>, rest: string) {
    Tokens(s) == read + Tokens(rest)
  }

  lemma ReadNext(s: string, read: seq<Token>, rest: string)
    requires ReadSoFar(s, read, rest)
    ensures rest == [] ==> Tokens(s) == read
    ensures rest != [] ==>
              && |read| < |Tokens(s)| && Tokens(s)[|read|] == NextToken(rest).0
              && NextToken(rest).0.unit < 0x1_0000_0000
              && ReadSoFar(s, read + [NextToken(rest).0], NextToken(rest).1)
  {
    if rest != [] {
      NextTokenFits(rest);
    }
  }

  lemma {:induction false} PrintAppend(ts: seq<Token>, t: Token)
    requires Units32(ts) && t.unit < 0x1_0000_0000
    ensures Units32(ts + [t]) && PrintAll(ts + [t]) == PrintAll(ts) + Print(t)
    decreases |ts|
  {
    hide Print;
    if ts == [] {
      assert [] + [t] == [t] && [t][1..] == [];
      assert PrintAll([t]) == Print(t) + [] && [] + Print(t) == Print(t) + [];
    } else {
      assert (ts + [t])[1..] == ts[1..] + [t] && (ts + [t])[0] == ts[0];
      PrintAppend(ts[1..], t);
      assert Print(ts[0]) + (PrintAll(ts[1..]) + Print(t)) == Print(ts[0]) + PrintAll(ts[1..]) + Print(t);
    }
  }

  // sprintf with "%s(%d)".
  method Format(out: string, t: Token) returns (r: string)
    requires t.unit < 0x1_0000_0000
    ensures r == out + Print(t)
    ensures r == out + t.name + "(" + (if t.unit < 0x8000_0000 then Digits(t.unit)
                                       else "-" + Digits(0x1_0000_0000 - t.unit)) + ")"
  {
    r := out + t.name + ['('];
    if t.unit < 0x8000_0000 {
      r := EmitUint(r, t.unit);
    } else {
      r := EmitUint(r + ['-'], 0x1_0000_0000 - t.unit);
    }
    r := r + [')'];
  }

  // Read the adapters; the token after them is read too.
  method ReadAdapters(s: string)
    returns (ok: bool, path: string, controller: Token, rest: string, ghost read: seq<Token>)
    ensures !ok ==> DeviceOf(Tokens(s)).None?
    ensures ok ==>
              && Units32(read) && path == PrintAll(read) && ReadSoFar(s, read + [controller], rest)
                  && controller.unit < 0x1_0000_0000
              && |read| < |Tokens(s)| && Tokens(s)[|read|] == controller
                  && DeviceOf(Tokens(s)) == DeviceAt(Tokens(s), |read|)
  {
    read, path, controller, rest := [], [], Token([], 0), s;
    ReadNext(s, [], s);
    var next, token := GetNextToken(s);
    if next == None {
      return false, path, controller, rest, read;
    }
    var index := MatchToken(token.name, ["eisa", "scsi", "multi"]);
    Adapters(token, index);
    if index == 3 {
      return false, path, controller, rest, read;
    }
    path := Format([], token);
    rest, read := next.value, [token];
    PrintAppend([], token);
    while true
      invariant Units32(read) && path == PrintAll(read) && ReadSoFar(s, read, rest) && |read| > 0
      invariant DeviceOf(Tokens(s)) == AfterAdapters(Tokens(s), |read|)
      decreases |rest|
    {
      ReadNext(s, read, rest);
      next, controller := GetNextToken(rest);
      if next == None {
        return false, path, controller, rest, read;
      }
      rest := next.value;
      index := MatchToken(controller.name, ["eisa", "scsi", "multi"]);
      Adapters(controller, index);
      if index == 3 {
        return true, path, controller, rest, read;
      }
      PrintAppend(read, controller);
      path := Format(path, controller);
      read := read + [controller];
    }
  }

  lemma Adapters(t: Token, index: nat)
    requires index <= 3 && (index < 3 ==> Alike(["eisa", "scsi", "multi"][index], t.name))
    requires forall j :: 0 <= j < index ==> !Alike(["eisa", "scsi", "multi"][j], t.name)
    ensures IsAdapter(t) <==> index < 3
  {
    if index == 3 {
      assert ["eisa", "scsi", "multi"][0] == "eisa" && ["eisa", "scsi", "multi"][1] == "scsi"
          && ["eisa", "scsi", "multi"][2] == "multi";
    }
  }

  lemma TwoKinds(kinds: seq<string>, name: string, index: nat)
    requires |kinds| == 2 && index <= 2 && (index < 2 ==> Alike(kinds[index], name))
    requires forall j :: 0 <= j < index ==> !Alike(kinds[j], name)
    ensures index == 0 <==> Alike(kinds[0], name)
    ensures index <= 1 <==> Alike(kinds[0], name) || Alike(kinds[1], name)
  {
  }

  /** The canonical name and NT prefix of a device name. */
  method GenerateDeviceNames(s: string) returns (names: Option<Names>)
    ensures names == NamesOf(s)
  {
    hide Tokens, NextToken, PrintAll, Print, Alike, AfterAdapters, DeviceOf;
    var ok, path, controller, rest, read := ReadAdapters(s);
    if !ok {
      return None;
    }
    ghost var n, ts := |read|, Tokens(s);
    var index := MatchToken(controller.name, ["disk", "cdrom"]);
    TwoKinds(["disk", "cdrom"], controller.name, index);
    PrintAppend(read, controller);
    ReadNext(s, read + [controller], rest);
    var next, peripheral := GetNextToken(rest);
    if next == None {
      return None;
    }
    ghost var three := read + [controller] + [peripheral];
    PrintAppend(read + [controller], peripheral);
    path := Format(path, controller);
    path := Format(path, peripheral);
    ReadNext(s, three, next.value);
    if index == 1 {
      if !Alike("fdisk", peripheral.name) {
        return None;
      }
      var last, token := GetNextToken(next.value);
      if last != None {
        return None;
      }
      NamesFrom(s, Device(three, "\\Device\\CDRom"));
      return Some(Names(path, "\\Device\\CDRom"));
    } else if index == 0 {
      names := DiskNames(s, path, controller, peripheral, next.value, read);
    } else {
      return None;
    }
  }

  // A disk: what follows the peripheral.
  method DiskNames(s: string, path0: string, controller: Token, peripheral: Token, rest: string, ghost read: seq<Token>)
    returns (names: Option<Names>)
    requires var three := read + [controller] + [peripheral];
             Units32(three) && path0 == PrintAll(three) && ReadSoFar(s, three, rest)
    requires |read| < |Tokens(s)| && DeviceOf(Tokens(s)) == DeviceAt(Tokens(s), |read|)
    requires Alike("disk", controller.name)
    ensures names == NamesOf(s)
  {
    hide NextToken, PrintAll, Print, Alike, AfterAdapters, DeviceOf;
    ghost var three := read + [controller] + [peripheral];
    var path := path0;
    ReadNext(s, three, rest);
    var index := MatchToken(peripheral.name, ["rdisk", "fdisk"]);
    TwoKinds(["rdisk", "fdisk"], peripheral.name, index);
    var next, partition := GetNextToken(rest);
    if index == 0 {
      if next == None {
        partition := DEFAULT_PARTITION;
        NamesFrom(s, Device(three + [partition], "\\Device\\Harddisk"));
      } else {
        if !Alike("partition", partition.name) {
          return None;
        }
        ReadNext(s, three + [partition], next.value);
        var last, token := GetNextToken(next.value);
        if last != None {
          return None;
        }
        NamesFrom(s, Device(three + [partition], "\\Device\\Harddisk"));
      }
      PrintAppend(three, partition);
      path := Format(path, partition);
      return Some(Names(path, "\\Device\\Harddisk"));
    } else if index == 1 {
      if next != None {
        return None;
      }
      NamesFrom(s, Device(three, "\\Device\\Floppy"));
      return Some(Names(path, "\\Device\\Floppy"));
    }
    return None;
  }
}
