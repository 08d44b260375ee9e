/** The shared-memory plugin: a row-major product asked of the column-major call. */
module HipSharedGemm {
  import opened Wrappers
  import opened Machine
  import opened Indexing
  import opened SharedGemmProtocol
  import opened MatrixProduct
  import ColumnMajor

  datatype Status = Success | InvalidArgument | Unsupported | Unavailable | BufferTooSmall | InternalError

  /** What the device does with an admitted request: it may fail before the call, while the
      libraries load or a handle or a region is set up, with a status of its own; or the call
      or the synchronisation after it may fail, with anything left in the C buffer. A call
      that succeeds may leave anything there, too, if C overlaps an operand. */
  datatype Device = Ready(overlapped: seq<real>) | NotReady(status: Status) | Faults(left: seq<real>)

  const REGION_STRUCT_SIZE: u32 := 80
  const WIN32_KMT: u32 := 1
  const READ_ONLY: u32 := 1
  const READ_WRITE: u32 := 3
  const I32_MAX: u64 := 0x7FFF_FFFF

  /** The length of the success receipt, "hip-rocblas-shared-gemm-ok". */
  const RECEIPT_LEN: u64 := 26

  datatype SharedRegion = SharedRegion(
    structSize: u32, handleKind: u32, access: u32, handle: u64, allocationSize: u64, offset: u64, length: u64)
  {
    /** Two regions of one allocation with bytes in common, where `memory` tells which
        allocation a handle refers to. */
    predicate Overlaps(other: SharedRegion, memory: u64 -> nat) {
      && memory(handle) == memory(other.handle)
      && offset < other.offset + other.length && other.offset < offset + length
    }
  }

  function ValidateRegion(region: SharedRegion, access: u32, expectedBytes: u64): bool {
    if region.structSize < REGION_STRUCT_SIZE || region.handleKind != WIN32_KMT || region.access != access
       || region.handle == 0 || region.length != expectedBytes || region.allocationSize == 0 then false
    else
      match CheckedAdd(region.offset, region.length)
      case None => false
      case Some(end) => end <= region.allocationSize
  }

  /** A request as the host passes it: control bytes, resources, the numbers of waits and
      signals, and room for the receipt. */
  datatype Request = Request(metadata: seq<u8>, resources: seq<SharedRegion>, waits: u32, signals: u32,
                             receiptCapacity: u64, receiptNull: bool)
  {
    /** Everything that is checked before the device is touched. */
    function Admission(): Status {
      match DecodeControl(metadata)
      case Err(_) => InvalidArgument
      case Ok(control) =>
        if |resources| != 3 || waits != 0 || signals != 0 then InvalidArgument
        else
          match ExpectedResourceLengths(control)
          case Err(_) => InvalidArgument
          case Ok(lengths) =>
            if !ValidateRegion(resources[0], READ_ONLY, lengths.aBytes)
               || !ValidateRegion(resources[1], READ_ONLY, lengths.bBytes)
               || !ValidateRegion(resources[2], READ_WRITE, lengths.cBytes) then InvalidArgument
            else if control.m > I32_MAX || control.n > I32_MAX || control.k > I32_MAX then Unsupported
            else Success
    }

    function WriteReceipt(): Status {
      if receiptCapacity < RECEIPT_LEN then BufferTooSmall else if receiptNull then InvalidArgument else Success
    }

    /** C shares no bytes with A or B. Admission does not ask for it. */
    predicate Disjoint(memory: u64 -> nat) {
      |resources| == 3 ==>
        !resources[2].Overlaps(resources[0], memory) && !resources[2].Overlaps(resources[1], memory)
    }

    /** The mapped regions hold exactly the floats of their byte lengths. */
    predicate Maps(a: seq<real>, b: seq<real>, c: seq<real>) {
      |resources| == 3 ==>
        && |a| == resources[0].length / 4
        && |b| == resources[1].length / 4
        && |c| == resources[2].length / 4
    }
  }

  /** A byte of an allocation that a region covers. */
  predicate Covers(region: SharedRegion, memory: u64 -> nat, allocation: nat, byte: nat) {
    memory(region.handle) == allocation && region.offset <= byte < region.offset + region.length
  }

  /** Non-empty regions overlap exactly when they have a byte in common. */
  lemma OverlapsExactly(x: SharedRegion, y: SharedRegion, memory: u64 -> nat)
    requires x.length > 0 && y.length > 0
    ensures x.Overlaps(y, memory) <==>
      exists allocation, byte: nat :: Covers(x, memory, allocation, byte) && Covers(y, memory, allocation, byte)
  {
    if x.Overlaps(y, memory) {
      var byte := if x.offset < y.offset then y.offset else x.offset;
      assert Covers(x, memory, memory(x.handle), byte) && Covers(y, memory, memory(x.handle), byte);
    }
  }

  /** C is kept apart from the operands exactly when it has no byte in common with either. */
  lemma DisjointExactly(request: Request, memory: u64 -> nat)
    requires |request.resources| == 3
    requires forall i :: 0 <= i < 3 ==> request.resources[i].length > 0
    ensures request.Disjoint(memory) <==>
      forall i: nat, allocation, byte: nat :: i < 2 && Covers(request.resources[2], memory, allocation, byte) ==>
        !Covers(request.resources[i], memory, allocation, byte)
  {
    OverlapsExactly(request.resources[2], request.resources[0], memory);
    OverlapsExactly(request.resources[2], request.resources[1], memory);
  }

  /** A region a matrix of that many floats may live in: at least 80 bytes of description, a
      shared handle of kind 1, the access asked for, the exact length, and inside its
      allocation. */
  predicate Houses(region: SharedRegion, access: u32, elements: nat) {
    && region.structSize >= 80 && region.handleKind == 1 && region.access == access
    && region.handle != 0
    && region.length == 4 * elements
    && 0 < region.allocationSize && region.offset + region.length <= region.allocationSize
  }

  /** What admission amounts to: a valid control whose three matrices are housed, two to be
      read (access 1) and one to be written (access 3), nothing to wait for or to signal, and
      dimensions that fit a signed 32-bit integer. Only when everything but the last holds is
      the request unsupported. */
  lemma AdmittedExactly(request: Request)
    ensures DecodeControl(request.metadata).Err? ==> request.Admission() == InvalidArgument
    ensures DecodeControl(request.metadata).Ok? ==>
      var c := DecodeControl(request.metadata).value;
      var housed := |request.resources| == 3 && request.waits == 0 && request.signals == 0
        && Houses(request.resources[0], 1, Times(c.m, c.k))
        && Houses(request.resources[1], 1, Times(c.k, c.n))
        && Houses(request.resources[2], 3, Times(c.m, c.n));
      var narrow := c.m <= 2147483647 && c.n <= 2147483647 && c.k <= 2147483647;
      request.Admission() == if !housed then InvalidArgument else if !narrow then Unsupported else Success
  {
    if DecodeControl(request.metadata).Ok? {
      LengthsExact(DecodeControl(request.metadata).value);
    }
  }

  /** The receipt needs 26 bytes, and a place to go. */
  lemma ReceiptExactly(request: Request)
    ensures request.WriteReceipt() ==
      if request.receiptCapacity < 26 then BufferTooSmall
      else if request.receiptNull then InvalidArgument else Success
  {}

  /** The swapped call: B with leading dimension n first, then A with k, into C with n. */
  function SwappedCall(control: SharedGemmControl, number: u32 -> real): ColumnMajor.Sgemm {
    ColumnMajor.Sgemm(control.n, control.m, control.k, number(control.alpha), control.n, control.k,
                      number(control.beta), control.n)
  }

  /** The same request as a row-major problem for the CPU oracle. */
  function RowMajor(control: SharedGemmControl, number: u32 -> real,
                    a: seq<real>, b: seq<real>, c: seq<real>): Gemm<real>
  {
    Gemm(control.m, control.n, control.k, number(control.alpha), number(control.beta), a, b, Some(c))
  }

  /** An admitted request has buffers of exactly the sizes its matrices need. */
  lemma AdmittedSizes(request: Request, number: u32 -> real, a: seq<real>, b: seq<real>, c: seq<real>)
    requires request.Admission() == Success && request.Maps(a, b, c)
    ensures DecodeControl(request.metadata).Ok?
    ensures var control := DecodeControl(request.metadata).value;
      && 0 < control.m <= I32_MAX && 0 < control.n <= I32_MAX && 0 < control.k <= I32_MAX
      && RowMajor(control, number, a, b, c).Valid()
  {
    var control := DecodeControl(request.metadata).value;
    LengthsExact(control);
  }

  lemma TightHolds(rows: nat, columns: nat, length: nat)
    requires length == columns * rows
    ensures ColumnMajor.Holds(length, rows, columns, rows)
  {
    if columns > 0 { LessTimes(columns - 1, columns, rows); }
  }

  /** Every leading dimension is legal and every buffer is long enough. */
  lemma SwappedCallFits(control: SharedGemmControl, number: u32 -> real, a: seq<real>, b: seq<real>, c: seq<real>)
    requires control.m > 0 && control.n > 0 && control.k > 0 && RowMajor(control, number, a, b, c).Valid()
    ensures ColumnMajor.Fits(SwappedCall(control, number), b, a, c)
  {
    TightHolds(control.n, control.k, |b|);
    TightHolds(control.k, control.m, |a|);
    TightHolds(control.n, control.m, |c|);
  }

  /** The column-major dot product of the swapped operands is the row-major one. */
  lemma {:induction false} SameDot(control: SharedGemmControl, number: u32 -> real, a: seq<real>,
                                   b: seq<real>, c: seq<real>, i: nat, j: nat, d: nat)
    requires control.m > 0 && control.n > 0 && control.k > 0 && RowMajor(control, number, a, b, c).Valid()
    requires i < control.m && j < control.n && d <= control.k
    requires ColumnMajor.Fits(SwappedCall(control, number), b, a, c)
    ensures ColumnMajor.ColumnDot(SwappedCall(control, number), b, a, j, i, d)
        == Dot(RowMajor(control, number, a, b, c), i, j, d)
  {
    if d == 0 {
    } else {
      SameDot(control, number, a, b, c, i, j, d - 1);
      assert ColumnMajor.ColumnAt(b, control.n, control.k, control.n, j, d - 1)
          == At(b, control.k, control.n, d - 1, j);
      assert ColumnMajor.ColumnAt(a, control.k, control.m, control.k, d - 1, i)
          == At(a, control.m, control.k, i, d - 1);
    }
  }

  /** What the swapped call writes at the place of cell (i, j). */
  lemma WrittenAt(control: SharedGemmControl, number: u32 -> real, a: seq<real>,
                  b: seq<real>, c: seq<real>, i: nat, j: nat, r: nat)
    requires control.m > 0 && control.n > 0 && control.k > 0 && RowMajor(control, number, a, b, c).Valid()
    requires ColumnMajor.Fits(SwappedCall(control, number), b, a, c)
    requires i < control.m && j < control.n && r < |c| && r % control.n == j && r / control.n == i
    ensures ColumnMajor.Written(SwappedCall(control, number), b, a, c, r)
         == number(control.beta) * c[r]
              + number(control.alpha) * Dot(RowMajor(control, number, a, b, c), i, j, control.k)
  {
    SameDot(control, number, a, b, c, i, j, control.k);
  }

  lemma WrittenIsCell(control: SharedGemmControl, number: u32 -> real, a: seq<real>,
                      b: seq<real>, c: seq<real>, i: nat, j: nat, r: nat)
    requires control.m > 0 && control.n > 0 && control.k > 0 && RowMajor(control, number, a, b, c).Valid()
    requires ColumnMajor.Fits(SwappedCall(control, number), b, a, c)
    requires i < control.m && j < control.n && r == i * control.n + j && r < |c|
    ensures ColumnMajor.Written(SwappedCall(control, number), b, a, c, r)
        == Cell(REALS, RowMajor(control, number, a, b, c), i, j)
  {
    GridDecode(i, j, control.n);
    WrittenAt(control, number, a, b, c, i, j, r);
    CellOverReals(RowMajor(control, number, a, b, c), i, j);
  }

  /** The buffer the swapped column-major call leaves is the row-major product. */
  lemma SwappedCallIsProduct(control: SharedGemmControl, number: u32 -> real,
                             a: seq<real>, b: seq<real>, c: seq<real>, after: seq<real>)
    requires control.m > 0 && control.n > 0 && control.k > 0 && RowMajor(control, number, a, b, c).Valid()
    requires ColumnMajor.Fits(SwappedCall(control, number), b, a, c) && |after| == |c|
    requires ColumnMajor.AllWritten(SwappedCall(control, number), b, a, c, after)
    ensures IsProduct(REALS, RowMajor(control, number, a, b, c), after)
  {
    var g := RowMajor(control, number, a, b, c);
    forall i, j | 0 <= i < g.m && 0 <= j < g.n ensures At(after, g.m, g.n, i, j) == Cell(REALS, g, i, j) {
      InGrid(i, g.m, j, g.n);
      WrittenIsCell(control, number, a, b, c, i, j, i * g.n + j);
    }
  }

  /** So it is, position by position, the buffer of the CPU oracle. */
  lemma SameAsOracle(control: SharedGemmControl, number: u32 -> real, a: seq<real>,
                     b: seq<real>, c: seq<real>, after: seq<real>, oracle: seq<real>)
    requires control.m > 0 && control.n > 0 && control.k > 0 && RowMajor(control, number, a, b, c).Valid()
    requires ColumnMajor.Fits(SwappedCall(control, number), b, a, c) && |after| == |c|
    requires ColumnMajor.AllWritten(SwappedCall(control, number), b, a, c, after)
    requires IsProduct(REALS, RowMajor(control, number, a, b, c), oracle)
    ensures after == oracle
  {
    SwappedCallIsProduct(control, number, a, b, c, after);
    ProductUnique(REALS, RowMajor(control, number, a, b, c), after, oracle);
  }

  // The answer in terms of the buffers -------------------------------------------------------

  function El(x: seq<real>, i: int): real {
    if 0 <= i < |x| then x[i] else 0.0
  }

  /** Row i of A times column j of B. */
  function RowTimesColumn(a: seq<real>, b: seq<real>, columns: nat, depth: nat, i: nat, j: nat, d: nat): real {
    if d == 0 then 0.0
    else
      RowTimesColumn(a, b, columns, depth, i, j, d - 1) + El(a, i * depth + (d - 1)) * El(b, (d - 1) * columns + j)
  }

  /** Cell (i, j) of alpha A B + beta C, in the control's own dimensions and scalars. */
  predicate IsUpdated(control: SharedGemmControl, number: u32 -> real, a: seq<real>, b: seq<real>,
                      before: seq<real>, after: seq<real>, i: nat, j: nat)
  {
    && 0 <= i * control.n + j < |after| == |before|
    && after[i * control.n + j]
        == number(control.alpha) * RowTimesColumn(a, b, control.n, control.k, i, j, control.k)
           + number(control.beta) * before[i * control.n + j]
  }

  ghost predicate AllUpdated(control: SharedGemmControl, number: u32 -> real, a: seq<real>, b: seq<real>,
                             before: seq<real>, after: seq<real>)
  {
    forall i: nat, j: nat {:trigger IsUpdated(control, number, a, b, before, after, i, j)} ::
      i < control.m && j < control.n ==> IsUpdated(control, number, a, b, before, after, i, j)
  }

  lemma {:induction false} DotIsRowTimesColumn(control: SharedGemmControl, number: u32 -> real, a: seq<real>,
                                               b: seq<real>, c: seq<real>, i: nat, j: nat, d: nat)
    requires RowMajor(control, number, a, b, c).Valid() && i < control.m && j < control.n && d <= control.k
    ensures Dot(RowMajor(control, number, a, b, c), i, j, d)
        == RowTimesColumn(a, b, control.n, control.k, i, j, d)
  {
    if d == 0 {
    } else {
      DotIsRowTimesColumn(control, number, a, b, c, i, j, d - 1);
      InGrid(i, control.m, d - 1, control.k);
      InGrid(d - 1, control.k, j, control.n);
    }
  }

  lemma ProductIsUpdated(control: SharedGemmControl, number: u32 -> real, a: seq<real>,
                         b: seq<real>, before: seq<real>, after: seq<real>)
    requires RowMajor(control, number, a, b, before).Valid()
    requires IsProduct(REALS, RowMajor(control, number, a, b, before), after)
    ensures AllUpdated(control, number, a, b, before, after)
  {
    var g := RowMajor(control, number, a, b, before);
    forall i: nat, j: nat | i < control.m && j < control.n
      ensures IsUpdated(control, number, a, b, before, after, i, j)
    {
      InGrid(i, control.m, j, control.n);
      assert At(after, g.m, g.n, i, j) == Cell(REALS, g, i, j);
      CellOverReals(g, i, j);
      DotIsRowTimesColumn(control, number, a, b, before, i, j, control.k);
    }
  }

  /** The status of a request on a device. */
  function Answer(request: Request, device: Device): Status {
    if request.Admission() != Success then request.Admission()
    else
      match device
      case NotReady(status) => status
      case Faults(_) => InternalError
      case Ready(_) => request.WriteReceipt()
  }

  /** What the device may leave when nothing is promised. */
  method Overwrite(c: array<real>, left: seq<real>)
    modifies c
    ensures forall r :: 0 <= r < c.Length ==> c[r] == if r < |left| then left[r] else old(c[r])
  {
    forall r | 0 <= r < c.Length && r < |left| {
      c[r] := left[r];
    }
  }

  /** One 4-byte region as all three matrices of a 1 x 1 product. */
  function InPlaceRequest(receiptCapacity: u64): Request {
    var region := SharedRegion(REGION_STRUCT_SIZE, WIN32_KMT, READ_ONLY, 1, 4, 0, 4);
    Request(ControlBytes(SharedGemmControl(1, 1, 1, 0, 0, 0)), [region, region, region.(access := READ_WRITE)], 0, 0,
            receiptCapacity, false)
  }

  /** A request whose C region is its A region is admitted. */
  lemma OverlapIsAdmitted(receiptCapacity: u64, memory: u64 -> nat)
    ensures InPlaceRequest(receiptCapacity).Admission() == Success && !InPlaceRequest(receiptCapacity).Disjoint(memory)
  {
    var control := SharedGemmControl(1, 1, 1, 0, 0, 0);
    ValidExactly(control);
    DecodeEncode(control);
    AdmittedExactly(InPlaceRequest(receiptCapacity));
    assert Times(1, 1) == 1;
  }

  /** A request that is admitted by a working device leaves the row-major product in the C
      buffer, whatever becomes of the receipt, if C overlaps neither operand. A request that
      is refused, or that fails before the call, leaves the buffer alone. */
  method ExecuteWindows(request: Request, device: Device, memory: u64 -> nat, number: u32 -> real,
                        a: seq<real>, b: seq<real>, c: array<real>)
    returns (status: Status)
    requires request.Maps(a, b, c[..])
    modifies c
    ensures status == Answer(request, device)
    ensures request.Admission() != Success || device.NotReady? ==> c[..] == old(c[..])
    ensures request.Admission() == Success ==> DecodeControl(request.metadata).Ok?
    ensures request.Admission() == Success && device.Ready? && request.Disjoint(memory) ==>
      var g := RowMajor(DecodeControl(request.metadata).value, number, a, b, old(c[..]));
      g.Valid() && IsProduct(REALS, g, c[..])
    ensures request.Admission() == Success && device.Ready? && request.Disjoint(memory) ==>
      AllUpdated(DecodeControl(request.metadata).value, number, a, b, old(c[..]), c[..])
  {
    if request.Admission() != Success {
      return request.Admission();
    }
    AdmittedSizes(request, number, a, b, c[..]);
    match device
    case NotReady(refusal) =>
      return refusal;
    case Faults(left) =>
      Overwrite(c, left);
      return InternalError;
    case Ready(overlapped) =>
      if !request.Disjoint(memory) {
        Overwrite(c, overlapped);
        return request.WriteReceipt();
      }
      var control := DecodeControl(request.metadata).value;
      SwappedCallFits(control, number, a, b, c[..]);
      ColumnMajor.Execute(SwappedCall(control, number), b, a, c);
      SwappedCallIsProduct(control, number, a, b, old(c[..]), c[..]);
      ProductIsUpdated(control, number, a, b, old(c[..]), c[..]);
      return request.WriteReceipt();
  }

  // Index maps ----------------------------------------------------------------------------------

  ghost predicate Touches(rows: nat, columns: nat, ld: nat, r: nat) {
    exists i: nat, j: nat :: Element(rows, columns, ld, i, j, r)
  }

  predicate Element(rows: nat, columns: nat, ld: nat, i: nat, j: nat, r: nat) {
    i < rows && j < columns && r == i + j * ld
  }

  /** A matrix without gaps between its columns touches exactly its element count, and
      no position twice. */
  lemma TouchesExactly(rows: nat, columns: nat, r: nat)
    ensures Touches(rows, columns, rows, r) <==> r < columns * rows
    ensures forall i: nat, j: nat, i': nat, j': nat ::
      Element(rows, columns, rows, i, j, r) && Element(rows, columns, rows, i', j', r) ==> i == i' && j == j'
  {
    if r < columns * rows {
      GridEncode(r, columns, rows);
      assert Element(rows, columns, rows, r % rows, r / rows, r);
    }
    forall i: nat, j: nat | Element(rows, columns, rows, i, j, r)
      ensures r < columns * rows && i == r % rows && j == r / rows
    {
      InGrid(j, columns, i, rows);
      GridDecode(j, i, rows);
    }
  }

  /** The three operands of the swapped call touch exactly the floats whose byte counts
      the protocol announces. */
  lemma IndexMapsExact(control: SharedGemmControl, number: u32 -> real, r: nat)
    requires ExpectedResourceLengths(control).Ok?
    ensures var lengths, call := ExpectedResourceLengths(control).value, SwappedCall(control, number);
      && call.Legal()
      && (Touches(call.m, call.k, call.lda, r) <==> 4 * r < lengths.bBytes)
      && (Touches(call.k, call.n, call.ldb, r) <==> 4 * r < lengths.aBytes)
      && (Touches(call.m, call.n, call.ldc, r) <==> 4 * r < lengths.cBytes)
  {
    LengthsExact(control);
    TouchesExactly(control.n, control.k, r);
    TouchesExactly(control.k, control.m, r);
    TouchesExactly(control.n, control.m, r);
  }
}
