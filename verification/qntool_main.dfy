/**
 The command line of qntool.py: connect, run one job (read the NVDS block,
 write it, or upload an application), then reboot the chip.
 */
module QnToolMain {
  import opened Bytes
  import opened Results
  import opened Transport
  import opened Frame
  import opened Session
  import opened QnTool

  /** What the command line was asked to do. */
  datatype Job = ReadJob | WriteJob(data: seq<byte>, force: bool) | UploadJob(image: seq<byte>)

  /** The job itself, between the handshake and the reboot; only a read has something to save. */
  function RunJob(link: Link, job: Job): (r: Step<seq<byte>>)
    ensures r.Done? && !job.ReadJob? ==> r.value == []
    ensures job.WriteJob? && ValidateNvds(job.data).Err? && !job.force ==> r == Failed(ValidateNvds(job.data).fault, link)
  {
    match job
    case ReadJob => ReadNvds(link)
    case WriteJob(data, force) =>
      (match WriteNvds(link, data, force)
       case Failed(e, l) => Failed(e, l)
       case Done(_, l) => Done([], l))
    case UploadJob(image) =>
      (match ProgramImage(link, image)
       case Failed(e, l) => Failed(e, l)
       case Done(_, l) => Done([], l))
  }

  /**
   The command line: connect at `mhz` MHz, run the job, reboot. Any exception
   ends the run where it is raised, and a refused write exits before the reboot.
   */
  function Run(link: Link, mhz: int, baud: int, limit: int, job: Job): (r: Step<seq<byte>>)
    ensures r.Done? && !job.ReadJob? ==> r.value == []
    ensures var c := Connect(link, mhz * 1000000, baud, limit);
      c.Failed? ==> r == Failed(c.fault, c.link)
  {
    match Connect(link, mhz * 1000000, baud, limit)
    case Failed(e, l) => Failed(e, l)
    case Done(_, l1) =>
      match RunJob(l1, job)
      case Failed(e, l) => Failed(e, l)
      case Done(out, l2) =>
        match Reboot(l2)
        case Failed(e, l) => Failed(e, l)
        case Done(_, l3) => Done(out, l3)
  }
}
