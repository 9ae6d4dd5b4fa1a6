/** Which files a copy needs, and from where. */
module CopyQuery {
  function SizeOf(files: map<string, nat>, name: string): nat {
    if name in files then files[name] else 0
  }

  predicate Needed(src: map<string, nat>, dst: map<string, nat>, name: string) {
    SizeOf(src, name) > SizeOf(dst, name)
  }

  predicate Doomed(src: map<string, nat>, dst: map<string, nat>, name: string) {
    SizeOf(src, name) == 0 && SizeOf(dst, name) != 0
  }

  /** Every name of either side once, in the order in which they happen to come. */
  ghost predicate Enumerates(names: seq<string>, src: map<string, nat>, dst: map<string, nat>) {
    && (forall i, j :: 0 <= i < j < |names| ==> names[i] != names[j])
    && (forall n :: n in names <==> n in src || n in dst)
  }

  function TotalSize(files: map<string, nat>, names: seq<string>): nat {
    if names == [] then 0
    else TotalSize(files, names[..|names| - 1]) + SizeOf(files, names[|names| - 1])
  }

  /** The destination once every needed file was copied to its end. */
  function Copied(src: map<string, nat>, dst: map<string, nat>): map<string, nat> {
    dst + map name | name in src && Needed(src, dst, name) :: src[name]
  }

  function Growth(src: map<string, nat>, dst: map<string, nat>, names: seq<string>): int {
    TotalSize(Copied(src, dst), names) - TotalSize(dst, names)
  }

  /** The query's answer, as far as it concerns some of the names. */
  ghost predicate Answers(need: map<string, nat>, doomed: seq<string>, total: int,
                          src: map<string, nat>, dst: map<string, nat>, names: seq<string>) {
    && (forall n :: n in need <==> n in names && Needed(src, dst, n))
    && (forall n :: n in need ==> need[n] == SizeOf(dst, n))
    && (forall n :: n in doomed <==> n in names && Doomed(src, dst, n))
    && total == Growth(src, dst, names)
  }

  /** The query: needed files with the size there is already, files to delete,
      and the number of bytes by which the destination will grow. */
  method LocalQuery(src: map<string, nat>, dst: map<string, nat>, names: seq<string>)
    returns (need: map<string, nat>, doomed: seq<string>, total: nat)
    requires Enumerates(names, src, dst)
    ensures forall n :: n in need <==> Needed(src, dst, n)
    ensures forall n :: n in need ==> need[n] == SizeOf(dst, n)
    ensures forall n :: n in doomed <==> Doomed(src, dst, n)
    ensures total == Growth(src, dst, names)
  {
    need, doomed, total := map[], [], 0;
    var i := 0;
    while i < |names|
      invariant 0 <= i <= |names|
      invariant Answers(need, doomed, total, src, dst, names[..i])
    {
      need, doomed, total := AddName(need, doomed, total, src, dst, names, i);
      i := i + 1;
    }
    WholeAnswer(need, doomed, total, src, dst, names, names[..i]);
  }

  lemma WholeAnswer(need: map<string, nat>, doomed: seq<string>, total: nat,
                    src: map<string, nat>, dst: map<string, nat>, names: seq<string>, all: seq<string>)
    requires Enumerates(names, src, dst) && all == names && Answers(need, doomed, total, src, dst, all)
    ensures forall n :: n in need <==> Needed(src, dst, n)
    ensures forall n :: n in need ==> need[n] == SizeOf(dst, n)
    ensures forall n :: n in doomed <==> Doomed(src, dst, n)
    ensures total == Growth(src, dst, names)
  {
  }

  method AddName(need: map<string, nat>, doomed: seq<string>, total: nat,
                 src: map<string, nat>, dst: map<string, nat>, names: seq<string>, i: nat)
    returns (need': map<string, nat>, doomed': seq<string>, total': nat)
    requires i < |names| && Answers(need, doomed, total, src, dst, names[..i])
    ensures Answers(need', doomed', total', src, dst, names[..i + 1])
  {
    NextName(need, doomed, total, src, dst, names, i);
    need', doomed', total' := Consider(need, doomed, total, src, dst, names[i]);
  }

  /** What one file adds to the answer. */
  method Consider(need: map<string, nat>, doomed: seq<string>, total: nat, src: map<string, nat>, dst: map<string, nat>, name: string)
    returns (need': map<string, nat>, doomed': seq<string>, total': nat)
    ensures need' == if Needed(src, dst, name) then need[name := SizeOf(dst, name)] else need
    ensures doomed' == if Doomed(src, dst, name) then doomed + [name] else doomed
    ensures total' == total + if Needed(src, dst, name) then SizeOf(src, name) - SizeOf(dst, name) else 0
  {
    need', doomed', total' := need, doomed, total;
    var ssrc, sdst := SizeOf(src, name), SizeOf(dst, name);
    if ssrc > sdst {
      need' := need'[name := sdst];
      total' := total' + (ssrc - sdst);
    }
    if ssrc == 0 && sdst != 0 {
      doomed' := doomed' + [name];
    }
  }

  lemma NextName(need: map<string, nat>, doomed: seq<string>, total: int,
                 src: map<string, nat>, dst: map<string, nat>, names: seq<string>, i: nat)
    requires i < |names| && Answers(need, doomed, total, src, dst, names[..i])
    ensures var n := names[i];
            Answers(if Needed(src, dst, n) then need[n := SizeOf(dst, n)] else need,
                    if Doomed(src, dst, n) then doomed + [n] else doomed,
                    total + (if Needed(src, dst, n) then SizeOf(src, n) - SizeOf(dst, n) else 0),
                    src, dst, names[..i + 1])
  {
    var n := names[i];
    assert names[..i + 1] == names[..i] + [n];
    GrowthSnoc(src, dst, names[..i], n);
  }

  lemma GrowthSnoc(src: map<string, nat>, dst: map<string, nat>, names: seq<string>, n: string)
    ensures Growth(src, dst, names + [n])
         == Growth(src, dst, names) + if Needed(src, dst, n) then SizeOf(src, n) - SizeOf(dst, n) else 0
  {
    CopiedSize(src, dst, n);
    assert (names + [n])[..|names|] == names;
  }

  lemma CopiedSize(src: map<string, nat>, dst: map<string, nat>, name: string)
    ensures SizeOf(Copied(src, dst), name) == if Needed(src, dst, name) then SizeOf(src, name) else SizeOf(dst, name)
  {
  }

  /** After the copy nothing is needed; what is to be deleted is the same as before. */
  lemma NothingNeededAfterCopy(src: map<string, nat>, dst: map<string, nat>, name: string)
    ensures !Needed(src, Copied(src, dst), name)
    ensures Doomed(src, Copied(src, dst), name) <==> Doomed(src, dst, name)
  {
    CopiedSize(src, dst, name);
  }
}
