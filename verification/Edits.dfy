/**
 * Where the normaliser and the apply engine meet (src/checksum.ts:138-145, src/commands/apply.ts:191,
 * 309-347): which edits of a file apply notices. The hash is any function of the normal form.
 */
module Edits {
  import opened Names
  import opened Graphs
  import opened Options
  import opened Records
  import opened Apply
  import opened ApplyLaws
  import opened NormalForm
  import opened NormalizerLaws

  function ChecksumString(hash: string -> string, content: string): string {
    hash(Normal(content))
  }

  /** The disk whose files have the given contents. */
  function DiskOf(hash: string -> string, files: seq<Name>, contents: map<Name, string>, edges: seq<Edge>,
                  dag: bool): Disk {
    Disk(files, map f | f in contents :: ChecksumString(hash, contents[f]), edges, dag)
  }

  ghost predicate SameSql(contents: map<Name, string>, edited: map<Name, string>, f: Name) {
    f in contents && f in edited && TrimAll(Stream(edited[f])) == TrimAll(Stream(contents[f]))
  }

  /**
   * After a run without errors, editing only comments and spacing, of any files, gives apply
   * nothing to do: the next run executes no SQL and adds no record. Dependencies declared in
   * comments may change with the edit.
   */
  lemma CosmeticEditsNeedNoApply(hash: string -> string, files: seq<Name>, contents: map<Name, string>,
                                 edges: seq<Edge>, dag: bool,
                                 log0: seq<Record>, clock: nat, order: seq<Name>, ok: nat -> bool,
                                 edited: map<Name, string>, edges': seq<Edge>, again: seq<Name>, ok': nat -> bool)
    requires var d := DiskOf(hash, files, contents, edges, dag);
      && d.Valid() && IsOrder(d, order) && (forall x :: x in order ==> x in d.checksums)
      && WellClocked(log0, clock) && After(d, log0, clock, order, ok).run.errors == []
    requires var later := DiskOf(hash, files, edited, edges', dag);
      later.Valid() && IsOrder(later, again) && forall x :: x in again ==> x in later.checksums
    requires forall f :: f in files ==> SameSql(contents, edited, f)
    ensures var d, later := DiskOf(hash, files, contents, edges, dag), DiskOf(hash, files, edited, edges', dag);
      var first := After(d, log0, clock, order, ok).run;
      After(later, first.log, first.clock, again, ok').run == Run(first.log, first.clock, [], again, [], [], None)
  {
    var d, later := DiskOf(hash, files, contents, edges, dag), DiskOf(hash, files, edited, edges', dag);
    forall f | f in files ensures f in d.checksums && f in later.checksums && later.checksums[f] == d.checksums[f] {
      assert SameSql(contents, edited, f);
      NormalFormsCompareStreams(edited[f], contents[f]);
    }
    ApplyConverges(d, log0, clock, order, ok, later, again, ok');
  }

  ghost predicate NoCollision(hash: string -> string, a: string, b: string) {
    hash(a) == hash(b) ==> a == b
  }

  /**
   * Tamper detection: a file that was applied with one content and is no longer the tail or a leaf
   * is rejected exactly when its token stream has changed, and otherwise skipped.
   */
  lemma TamperingIsRejectedExactlyWhen(hash: string -> string, d: Disk, log: seq<Record>, f: Name, applied: string,
                                       content: string)
    requires Chronological(log) && f in d.checksums && !Editable(d, f)
    requires LastOfFile(log, f).Some? && LastOfFile(log, f).value.status == Applied
    requires LastOfFile(log, f).value.checksum == ChecksumString(hash, applied)
    requires d.checksums[f] == ChecksumString(hash, content) && NoCollision(hash, Normal(applied), Normal(content))
    ensures DecisionFor(d, log, f).Reject? <==> TrimAll(Stream(content)) != TrimAll(Stream(applied))
    ensures !DecisionFor(d, log, f).Reject? ==> DecisionFor(d, log, f) == Skip
  {
    LatestOfFile(log, f);
    NormalFormsCompareStreams(content, applied);
  }
}
