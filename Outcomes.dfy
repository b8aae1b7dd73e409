/** Optional values and the failures the Python code raises as exceptions.
    Printed diagnostics followed by a sentinel return (-1, False, None) are
    modelled as ordinary values by the operations themselves; only the
    exceptions that abort an operation become a Fault. */
module Outcomes {

  datatype Option<T> = None | Some(value: T)

  datatype Fault =
    | DeviceFault    // an assert in BlockDevice, or a seek/read/write on the backing file that fails
    | FormatFault    // struct.unpack on too few bytes, or an unknown inode type tag (INodeType(x))
    | IndexFault     // a list or bytearray index out of range
    | ValueFault     // int() of a non-numeric directory field
    | ArithFault     // a division by zero
    | TypeFault      // a list indexed by a float (a negative indirection level)
    | RangeFault     // struct.pack of a value that does not fit its field
    | EncodingFault  // text that is not ASCII (UTF-8 beyond ASCII is not modelled)
    | LookupFault    // an attribute of a missing object (None.inode, a device never opened)
    | KindFault      // add_child's assert on a missing inode or one that is neither a file nor a directory

  datatype Result<T> = Ok(value: T) | Err(fault: Fault)
}
