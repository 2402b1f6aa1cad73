/** file.c: an open file, as an offset into the bytes of its inode. */
module OpenFiles {
  import opened Layout
  import opened Blocks
  import opened Merkle
  import opened Relations
  import opened FileBytes
  import opened Carrying
  import opened EnclaveStore

  const INODE_TP_FILE := 1

  const SEEK_SET := 0
  const SEEK_CUR := 1
  const SEEK_END := 2

  class OpenFile {
    const fs: Enclave
    const iid: nat
    const writable: bool
    var offset: nat

    ghost predicate Valid()
      reads this, fs
    {
      Files(fs.St(), fs.A) && fs.fr == {} && iid in fs.inodes && offset <= fs.inodes[iid].size
    }

    // The bytes of the file.
    ghost function Contents(): Bytes
      requires Valid()
      reads this, fs
    {
      Content(fs.St(), fs.A, {}, iid)
    }

    // The inode's type; directories are not read or written through open files.
    ghost predicate IsFile()
      requires Valid()
      reads this, fs
    {
      fs.inodes[iid].tp == INODE_TP_FILE
    }

    /** The end of fopen. */
    constructor (fs: Enclave, iid: nat, writable: bool, append: bool)
      requires Files(fs.St(), fs.A) && fs.fr == {} && iid in fs.inodes
      ensures Valid() && this.fs == fs && this.iid == iid && this.writable == writable
      ensures offset == if writable && append then |Contents()| else 0
    {
      this.fs, this.iid, this.writable := fs, iid, writable;
      offset := if writable && append then fs.inodes[iid].size else 0;
    }

    /** fread and inode_read_file: the next bytes of the file, and the offset moves behind them. */
    method Read(size: nat) returns (data: Bytes)
      requires Valid() && size < UINT32_SPAN
      modifies `offset, fs`disk, fs`pdWb, fs`bcac, fs`inodes, fs`used, fs`A, fs`fr
      ensures Valid() && Contents() == old(Contents()) && offset == old(offset) + |data|
      ensures SameFiles(old(fs.St()), old(fs.A), fs.St(), fs.A) && IsFile() == old(IsFile())
      ensures data == if IsFile() && old(offset) + size < UINT32_SPAN
        then old(Contents()[offset..Min(offset + size, |Contents()|)]) else []
      ensures Transferred(old(fs.St()), fs.St(), fs.A, iid, old(offset), |data|)
      ensures fs.A == old(fs.A) && Harmless(old(fs.St()), fs.St())
    {
      hide Sound, Covered, Content, Transferred, Harmless;
      fs.NothingRead(iid, offset);
      HarmlessRefl(fs.St());
      data := [];
      if fs.inodes[iid].tp == INODE_TP_FILE {
        data := fs.ReadData(iid, offset, size);
      } else {
        SameFilesRefl(fs.St(), fs.A);
      }
      offset := offset + |data|;
    }

    /** fwrite and inode_write_file: the bytes at the offset are replaced, the file grows if they reach past its end,
        and no other file changes. */
    method Write(buf: Bytes) returns (n: nat)
      requires Valid() && |buf| < UINT32_SPAN
      requires writable && IsFile() && offset + |buf| < UINT32_MAX ==> Roomy(fs.St(), fs.A, iid, offset, |buf|)
      modifies `offset, fs`disk, fs`pdWb, fs`bcac, fs`inodes, fs`used, fs`A, fs`fr
      ensures Valid() && offset == old(offset) + n
      ensures IsFile() == old(IsFile())
      ensures n == if !writable || !IsFile() || old(offset) + |buf| >= UINT32_MAX then 0 else |buf|
      ensures Contents() == Written(old(Contents()), old(offset), buf[..n])
      ensures OneFileChanged(old(fs.St()), old(fs.A), fs.St(), fs.A, iid)
      ensures Transferred(old(fs.St()), fs.St(), fs.A, iid, old(offset), n)
      ensures TookAll(old(fs.St()), old(fs.A), fs.St(), fs.A, iid, old(offset), n)
    {
      hide Sound, Covered, Content, Roomy, Transferred, TookAll;
      fs.NothingRead(iid, offset);
      fs.NothingWritten(iid, offset);
      WrittenNothing(Contents(), offset);
      if !writable {
        return 0;
      }
      if fs.inodes[iid].tp != INODE_TP_FILE {
        return 0;
      }
      WrittenLength(Contents(), offset, if offset + |buf| >= UINT32_MAX then [] else buf);
      n := fs.WriteData(iid, offset, buf);
      assert buf[..|buf|] == buf && buf[..0] == [];
      offset := offset + n;
    }

    /** feof */
    method Eof() returns (r: bool)
      requires Valid()
      ensures r <==> offset == |Contents()|
    {
      r := fs.inodes[iid].size == offset;
    }

    /** fseek, on 32-bit offsets: it succeeds exactly if the target lies in the file or at its
        end. */
    method Seek(off: nat, whence: int) returns (err: int)
      requires Valid() && off < UINT32_SPAN
      modifies `offset
      ensures Valid() && Contents() == old(Contents())
      ensures var base := if whence == SEEK_SET then 0 else if whence == SEEK_CUR then old(offset) else |Contents()|;
        if SEEK_SET <= whence <= SEEK_END && base + off <= |Contents()| then err == 0 && offset == base + off
        else err == 1 && offset == old(offset)
    {
      hide Sound;
      var newoff, ipsize := 0, fs.inodes[iid].size;
      if whence == SEEK_SET {
        newoff := 0;
      } else if whence == SEEK_CUR {
        newoff := offset;
      } else if whence == SEEK_END {
        newoff := ipsize;
      } else {
        return 1;
      }
      if (newoff + off) % UINT32_SPAN < newoff {
        return 1;
      }
      newoff := (newoff + off) % UINT32_SPAN;
      if newoff > ipsize {
        return 1;
      }
      offset := newoff;
      err := 0;
    }
  }

  lemma SameFilesRefl(s: State, A: Tree)
    requires Files(s, A)
    ensures SameFiles(s, A, s, A)
  {
  }

  /** What has been written can be read back at the same offset, and everything beside it is as
      it was. */
  lemma ReadBack(c: Bytes, off: nat, buf: Bytes)
    requires off <= |c|
    ensures off + |buf| <= |Written(c, off, buf)| && Written(c, off, buf)[off..off + |buf|] == buf
    ensures Written(c, off, buf)[..off] == c[..off]
    ensures off + |buf| <= |c| ==> Written(c, off, buf)[off + |buf|..] == c[off + |buf|..]
  {
  }
}
