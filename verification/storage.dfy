/** The two files below the pager: the database file and the write-ahead log, each with a
    current content (what reads see) and a durable content (what a sync made safe). */
module Storage {

  const WORD_BITS: nat := 64

  /** A U64 of a bitset page, given by its bits, least significant first. */
  type Word = w: seq<bool> | |w| == WORD_BITS witness seq(WORD_BITS, _ => false)

  /** One addressable unit of the database file. Unit 0 is the header; in a log frame and in
      `wal_index` the source spells that key MAX_U64. Magic, version and page size never change,
      so the header carries the two fields that do. */
  datatype Block = Header(pageCount: nat, rootPage: nat) | Page(words: seq<Word>)

  function PageCount(b: Block): nat {
    if b.Header? then b.pageCount else 0
  }

  /** The root page that a header names. */
  function RootPage(b: Block): nat {
    if b.Header? then b.rootPage else 0
  }

  /** File content by unit. A unit past the end of the file reads as `zero`: the read buffer is
      allocated zeroed and growing a file fills it with zeros. */
  type File = map<nat, Block>

  function Get(f: File, zero: Block, i: nat): Block {
    if i in f then f[i] else zero
  }

  function Truncate(f: File, n: nat): File {
    map i | i in f && i < n :: f[i]
  }

  /** `wal::Frame` with the data that follows it. */
  datatype Frame = Frame(slot: nat, block: Block)

  const NO_FRAME: Frame := Frame(0, Header(0, 0))

  function FrameAt(frames: seq<Frame>, k: nat): Frame {
    if k < |frames| then frames[k] else NO_FRAME
  }

  /** Units in `touched` were written or cut off since the last sync. */
  datatype Database = Database(cur: File, durable: File, touched: iset<nat>)

  /** `pending` holds the frame counts written since the last sync; that 8-byte write is atomic. */
  datatype Log = Log(frames: seq<Frame>, durableFrames: seq<Frame>, touched: iset<nat>,
                     count: nat, durableCount: nat, pending: set<nat>)
}
