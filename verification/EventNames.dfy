/** The strings by which the C collector names events, and the Java agent's reading of them. */
module EventNames {
  import opened Events
  import opened Wrappers

  /** Text that survives a field of the handoff file: no separator or line break inside, no blank at the ends. */
  ghost predicate IsLabel(s: string) {
    && s != [] && s[0] > ' ' && s[|s| - 1] > ' '
    && forall i | 0 <= i < |s| :: s[i] >= ' ' && s[i] != '|'
  }

  type Label = s: string | IsLabel(s) witness "A"

  const NAME_NET_RX := "NET_RX"
  const NAME_NAPI_POLL := "NAPI_POLL"
  const NAME_ETHERNET_RX := "ETHERNET_RX"
  const NAME_IRQ_ENTRY := "IRQ_ENTRY"
  const NAME_SOFTIRQ_ENTRY := "SOFTIRQ_ENTRY"
  const NAME_IP_RCV := "IP_RCV"
  const NAME_NETFILTER_HOOK := "NETFILTER_HOOK"
  const NAME_ROUTE_LOOKUP := "ROUTE_LOOKUP"
  const NAME_TCP_V4_RCV := "TCP_V4_RCV"
  const NAME_TCP_STATE_MACHINE := "TCP_STATE_MACHINE"
  const NAME_TCP_DATA_QUEUE := "TCP_DATA_QUEUE"
  const NAME_SOCK_DEF_READABLE := "SOCK_READABLE"
  const NAME_SCHED_WAKEUP := "SCHED_WAKEUP"
  const NAME_SCHED_SWITCH := "SCHED_SWITCH"
  const NAME_NGINX_HTTP_PARSE := "NGINX_HTTP_PARSE"
  const NAME_NGINX_REVERSE_PROXY := "NGINX_REVERSE_PROXY"
  const NAME_NGINX_BACKEND_SOCKET := "NGINX_BACKEND_SOCKET"
  const NAME_NGINX_RESPONSE_GEN := "NGINX_RESPONSE_GEN"
  const NAME_NGINX_RESPONSE_TX := "NGINX_RESPONSE_TX"
  const NAME_ACCEPT4_ENTER := "ACCEPT4_ENTER"
  const NAME_ACCEPT4_EXIT := "ACCEPT4_EXIT"
  const NAME_RECVFROM_ENTER := "RECVFROM_ENTER"
  const NAME_RECVFROM_EXIT := "RECVFROM_EXIT"
  const NAME_SENDTO_ENTER := "SENDTO_ENTER"
  const NAME_SENDTO_EXIT := "SENDTO_EXIT"
  const NAME_TCP_SENDMSG := "TCP_SENDMSG"
  const NAME_TCP_WRITE_XMIT := "TCP_WRITE_XMIT"
  const NAME_IP_OUTPUT := "IP_OUTPUT"
  const NAME_NET_DEV_QUEUE := "NET_DEV_QUEUE"
  const NAME_OTHER := "UNKNOWN"

  const DESC_NET_RX: Label := "NIC receives Ethernet frame"
  const DESC_NAPI_POLL: Label := "NAPI poll drains RX ring"
  const DESC_ETHERNET_RX: Label := "Ethernet frame type decoded"
  const DESC_IRQ_ENTRY: Label := "CPU enters IRQ handler"
  const DESC_SOFTIRQ_ENTRY: Label := "SoftIRQ (NET_RX_SOFTIRQ) " + "scheduled"
  const DESC_IP_RCV: Label := "IPv4 layer validates header"
  const DESC_NETFILTER_HOOK: Label := "Netfilter hook processing"
  const DESC_ROUTE_LOOKUP: Label := "Routing decision lookup"
  const DESC_TCP_V4_RCV: Label := "TCP layer finds destination socket"
  const DESC_TCP_STATE_MACHINE: Label := "TCP state machine update"
  const DESC_TCP_DATA_QUEUE: Label := "Socket receive queue copies payload"
  const DESC_SOCK_DEF_READABLE: Label := "Socket marked readable, " + "recv() wakes up"
  const DESC_SCHED_WAKEUP: Label := "Scheduler wakeup triggered"
  const DESC_SCHED_SWITCH: Label := "Context switch between tasks"
  const DESC_NGINX_HTTP_PARSE: Label := "nginx parses HTTP request"
  const DESC_NGINX_REVERSE_PROXY: Label := "nginx enters reverse proxy stage"
  const DESC_NGINX_BACKEND_SOCKET: Label := "nginx backend socket interaction"
  const DESC_NGINX_RESPONSE_GEN: Label := "nginx finalizes response"
  const DESC_NGINX_RESPONSE_TX: Label := "nginx writes response to client"
  const DESC_ACCEPT4_ENTER: Label := "accept() called by application"
  const DESC_ACCEPT4_EXIT: Label := "accept() returned new socket fd"
  const DESC_RECVFROM_ENTER: Label := "recv() called, " + "waiting for HTTP request"
  const DESC_RECVFROM_EXIT: Label := "recv() returned HTTP request data"
  const DESC_SENDTO_ENTER: Label := "send() called with HTTP response"
  const DESC_SENDTO_EXIT: Label := "send() returned"
  const DESC_TCP_SENDMSG: Label := "TCP transmit path entered"
  const DESC_TCP_WRITE_XMIT: Label := "TCP segments enqueued for transmit"
  const DESC_IP_OUTPUT: Label := "IPv4 routes and transmits packet"
  const DESC_NET_DEV_QUEUE: Label := "NIC transmit queue enqueued"
  const DESC_OTHER: Label := "kernel event"

  const NETWORK := "Network layer"
  const KERNEL_SOCKET := "Kernel socket layer"
  const WEB_SERVER := "Web server"
  const APPLICATION := "Application"
  const DATABASE := "Database"
  const RESPONSE := "Response path"

  function EventName(k: Kind): string {
    match k
    case NetRx => NAME_NET_RX
    case NapiPoll => NAME_NAPI_POLL
    case EthernetRx => NAME_ETHERNET_RX
    case IrqEntry => NAME_IRQ_ENTRY
    case SoftirqEntry => NAME_SOFTIRQ_ENTRY
    case IpRcv => NAME_IP_RCV
    case NetfilterHook => NAME_NETFILTER_HOOK
    case RouteLookup => NAME_ROUTE_LOOKUP
    case TcpV4Rcv => NAME_TCP_V4_RCV
    case TcpStateMachine => NAME_TCP_STATE_MACHINE
    case TcpDataQueue => NAME_TCP_DATA_QUEUE
    case SockDefReadable => NAME_SOCK_DEF_READABLE
    case SchedWakeup => NAME_SCHED_WAKEUP
    case SchedSwitch => NAME_SCHED_SWITCH
    case NginxHttpParse => NAME_NGINX_HTTP_PARSE
    case NginxReverseProxy => NAME_NGINX_REVERSE_PROXY
    case NginxBackendSocket => NAME_NGINX_BACKEND_SOCKET
    case NginxResponseGen => NAME_NGINX_RESPONSE_GEN
    case NginxResponseTx => NAME_NGINX_RESPONSE_TX
    case Accept4Enter => NAME_ACCEPT4_ENTER
    case Accept4Exit => NAME_ACCEPT4_EXIT
    case RecvfromEnter => NAME_RECVFROM_ENTER
    case RecvfromExit => NAME_RECVFROM_EXIT
    case SendtoEnter => NAME_SENDTO_ENTER
    case SendtoExit => NAME_SENDTO_EXIT
    case TcpSendmsg => NAME_TCP_SENDMSG
    case TcpWriteXmit => NAME_TCP_WRITE_XMIT
    case IpOutput => NAME_IP_OUTPUT
    case NetDevQueue => NAME_NET_DEV_QUEUE
    case Other(_) => NAME_OTHER
  }

  function EventDesc(k: Kind): Label {
    match k
    case NetRx => DESC_NET_RX
    case NapiPoll => DESC_NAPI_POLL
    case EthernetRx => DESC_ETHERNET_RX
    case IrqEntry => DESC_IRQ_ENTRY
    case SoftirqEntry => DESC_SOFTIRQ_ENTRY
    case IpRcv => DESC_IP_RCV
    case NetfilterHook => DESC_NETFILTER_HOOK
    case RouteLookup => DESC_ROUTE_LOOKUP
    case TcpV4Rcv => DESC_TCP_V4_RCV
    case TcpStateMachine => DESC_TCP_STATE_MACHINE
    case TcpDataQueue => DESC_TCP_DATA_QUEUE
    case SockDefReadable => DESC_SOCK_DEF_READABLE
    case SchedWakeup => DESC_SCHED_WAKEUP
    case SchedSwitch => DESC_SCHED_SWITCH
    case NginxHttpParse => DESC_NGINX_HTTP_PARSE
    case NginxReverseProxy => DESC_NGINX_REVERSE_PROXY
    case NginxBackendSocket => DESC_NGINX_BACKEND_SOCKET
    case NginxResponseGen => DESC_NGINX_RESPONSE_GEN
    case NginxResponseTx => DESC_NGINX_RESPONSE_TX
    case Accept4Enter => DESC_ACCEPT4_ENTER
    case Accept4Exit => DESC_ACCEPT4_EXIT
    case RecvfromEnter => DESC_RECVFROM_ENTER
    case RecvfromExit => DESC_RECVFROM_EXIT
    case SendtoEnter => DESC_SENDTO_ENTER
    case SendtoExit => DESC_SENDTO_EXIT
    case TcpSendmsg => DESC_TCP_SENDMSG
    case TcpWriteXmit => DESC_TCP_WRITE_XMIT
    case IpOutput => DESC_IP_OUTPUT
    case NetDevQueue => DESC_NET_DEV_QUEUE
    case Other(_) => DESC_OTHER
  }

  function EventSection(k: Kind): string {
    match k
    case NetRx | NapiPoll | EthernetRx | IrqEntry | SoftirqEntry | IpRcv | NetfilterHook | RouteLookup
      | TcpV4Rcv | TcpStateMachine => NETWORK
    case TcpDataQueue | SockDefReadable | SchedWakeup | SchedSwitch | RecvfromEnter | RecvfromExit => KERNEL_SOCKET
    case Accept4Enter | Accept4Exit | NginxHttpParse | NginxReverseProxy | NginxBackendSocket => WEB_SERVER
    case NginxResponseGen | NginxResponseTx | SendtoEnter | SendtoExit
      | TcpSendmsg | TcpWriteXmit | IpOutput | NetDevQueue => RESPONSE
    case Other(_) => KERNEL_SOCKET
  }

  /** The agent's classification works on names alone. */
  function KernelSection(name: string): string {
    if name in [
      NAME_NET_RX, NAME_NAPI_POLL, NAME_ETHERNET_RX, NAME_IRQ_ENTRY, NAME_SOFTIRQ_ENTRY, NAME_IP_RCV,
      NAME_NETFILTER_HOOK, NAME_ROUTE_LOOKUP, NAME_TCP_V4_RCV, NAME_TCP_STATE_MACHINE
    ] then NETWORK
    else if name in [
      NAME_TCP_DATA_QUEUE, NAME_SOCK_DEF_READABLE, NAME_SCHED_WAKEUP, NAME_SCHED_SWITCH,
      NAME_RECVFROM_ENTER, NAME_RECVFROM_EXIT
    ] then KERNEL_SOCKET
    else if name in [
      NAME_ACCEPT4_ENTER, NAME_ACCEPT4_EXIT, NAME_NGINX_HTTP_PARSE, NAME_NGINX_REVERSE_PROXY,
      NAME_NGINX_BACKEND_SOCKET
    ] then WEB_SERVER
    else if name in [
      NAME_NGINX_RESPONSE_GEN, NAME_NGINX_RESPONSE_TX, NAME_SENDTO_ENTER, NAME_SENDTO_EXIT,
      NAME_TCP_SENDMSG, NAME_TCP_WRITE_XMIT, NAME_IP_OUTPUT, NAME_NET_DEV_QUEUE
    ] then RESPONSE
    else KERNEL_SOCKET
  }

  // ---------- The agent's breakdown by layer ----------

  datatype AgentBucket =
    NicReceive | IPv4 | TCP | SocketQueue | Scheduler | NginxTime | Spring | PostgreSQL | TcpSend | Uncounted

  function AgentBucketOf(stage: string, section: string): AgentBucket {
    if stage in [NAME_NET_RX, NAME_NAPI_POLL, NAME_ETHERNET_RX, NAME_IRQ_ENTRY, NAME_SOFTIRQ_ENTRY] then NicReceive
    else if stage in [NAME_IP_RCV, NAME_NETFILTER_HOOK, NAME_ROUTE_LOOKUP] then IPv4
    else if stage in [NAME_TCP_V4_RCV, NAME_TCP_STATE_MACHINE] then TCP
    else if stage in [NAME_TCP_DATA_QUEUE, NAME_SOCK_DEF_READABLE, NAME_RECVFROM_ENTER, NAME_RECVFROM_EXIT]
      then SocketQueue
    else if stage in [NAME_SCHED_WAKEUP, NAME_SCHED_SWITCH] then Scheduler
    else if section == WEB_SERVER then NginxTime
    else if section == APPLICATION then Spring
    else if section == DATABASE then PostgreSQL
    else if section == RESPONSE then TcpSend
    else Uncounted
  }

  // ---------- What the agent makes of the names ----------

  /** The layer that an event's name stands for. */
  function NameBucket(k: Kind): AgentBucket {
    match k
    case NetRx | NapiPoll | EthernetRx | IrqEntry | SoftirqEntry => NicReceive
    case IpRcv | NetfilterHook | RouteLookup => IPv4
    case TcpV4Rcv | TcpStateMachine => TCP
    case TcpDataQueue | SockDefReadable | RecvfromEnter | RecvfromExit => SocketQueue
    case SchedWakeup | SchedSwitch => Scheduler
    case Accept4Enter | Accept4Exit | NginxHttpParse | NginxReverseProxy | NginxBackendSocket => NginxTime
    case NginxResponseGen | NginxResponseTx | SendtoEnter | SendtoExit
      | TcpSendmsg | TcpWriteXmit | IpOutput | NetDevQueue => TcpSend
    case Other(_) => Uncounted
  }

  /** The name means the same section and the right layer to the agent. */
  predicate Understood(k: Kind) {
    && KernelSection(EventName(k)) == EventSection(k)
    && AgentBucketOf(EventName(k), EventSection(k)) == NameBucket(k)
  }

  lemma ReceiveNamesAreUnderstood(k: Kind)
    requires NameBucket(k) in {NicReceive, IPv4, TCP}
    ensures Understood(k)
  {}

  lemma SocketNamesAreUnderstood(k: Kind)
    requires NameBucket(k) == SocketQueue
    ensures Understood(k)
  {}

  lemma SchedulerNamesAreUnderstood(k: Kind)
    requires NameBucket(k) == Scheduler
    ensures Understood(k)
  {}

  lemma AcceptNamesAreUnderstood(k: Kind)
    requires k.Accept4Enter? || k.Accept4Exit?
    ensures Understood(k)
  {}

  lemma ServerNamesAreUnderstood(k: Kind)
    requires k.NginxHttpParse? || k.NginxReverseProxy? || k.NginxBackendSocket?
    ensures Understood(k)
  {}

  lemma ReplyNamesAreUnderstood(k: Kind)
    requires k.NginxResponseGen? || k.NginxResponseTx?
    ensures Understood(k)
  {}

  lemma SendNamesAreUnderstood(k: Kind)
    requires k.SendtoEnter? || k.SendtoExit? || k.TcpSendmsg?
    ensures Understood(k)
  {}

  lemma OutputNamesAreUnderstood(k: Kind)
    requires k.TcpWriteXmit? || k.IpOutput? || k.NetDevQueue?
    ensures Understood(k)
  {}

  lemma NamesAreUnderstood(k: Kind)
    ensures Understood(k)
  {
    match k
    case Accept4Enter | Accept4Exit => AcceptNamesAreUnderstood(k);
    case NginxHttpParse | NginxReverseProxy | NginxBackendSocket => ServerNamesAreUnderstood(k);
    case NginxResponseGen | NginxResponseTx => ReplyNamesAreUnderstood(k);
    case SendtoEnter | SendtoExit | TcpSendmsg => SendNamesAreUnderstood(k);
    case TcpWriteXmit | IpOutput | NetDevQueue => OutputNamesAreUnderstood(k);
    case TcpDataQueue | SockDefReadable | RecvfromEnter | RecvfromExit => SocketNamesAreUnderstood(k);
    case SchedWakeup | SchedSwitch => SchedulerNamesAreUnderstood(k);
    case Other(_) =>
    case _ => ReceiveNamesAreUnderstood(k);
  }

  /** Kernel events and agent agree on the section of every event, named or not. */
  lemma SectionsAgree(k: Kind)
    ensures KernelSection(EventName(k)) == EventSection(k)
  {
    NamesAreUnderstood(k);
  }

  lemma LinkNamesAreLabels(k: Kind)
    requires NameBucket(k) == NicReceive
    ensures IsLabel(EventName(k))
  {}

  lemma NetworkNamesAreLabels(k: Kind)
    requires NameBucket(k) in {IPv4, TCP}
    ensures IsLabel(EventName(k))
  {}

  lemma SocketNamesAreLabels(k: Kind)
    requires NameBucket(k) in {SocketQueue, Scheduler}
    ensures IsLabel(EventName(k))
  {}

  lemma ServerNamesAreLabels(k: Kind)
    requires NameBucket(k) == NginxTime
    ensures IsLabel(EventName(k))
  {}

  lemma SendNamesAreLabels(k: Kind)
    requires NameBucket(k) == TcpSend
    ensures IsLabel(EventName(k))
  {}

  /** Every event's name survives a field of the handoff file. */
  lemma NamesAreLabels(k: Kind)
    ensures IsLabel(EventName(k))
  {
    match NameBucket(k)
    case NicReceive => LinkNamesAreLabels(k);
    case IPv4 | TCP => NetworkNamesAreLabels(k);
    case SocketQueue | Scheduler => SocketNamesAreLabels(k);
    case NginxTime => ServerNamesAreLabels(k);
    case TcpSend => SendNamesAreLabels(k);
    case _ =>
  }

  // ---------- A name tells its event ----------

  /** The event that a name stands for. */
  function KindNamed(name: string): Option<Kind> {
    match name
    case "NET_RX" => Some(NetRx)
    case "NAPI_POLL" => Some(NapiPoll)
    case "ETHERNET_RX" => Some(EthernetRx)
    case "IRQ_ENTRY" => Some(IrqEntry)
    case "SOFTIRQ_ENTRY" => Some(SoftirqEntry)
    case "IP_RCV" => Some(IpRcv)
    case "NETFILTER_HOOK" => Some(NetfilterHook)
    case "ROUTE_LOOKUP" => Some(RouteLookup)
    case "TCP_V4_RCV" => Some(TcpV4Rcv)
    case "TCP_STATE_MACHINE" => Some(TcpStateMachine)
    case "TCP_DATA_QUEUE" => Some(TcpDataQueue)
    case "SOCK_READABLE" => Some(SockDefReadable)
    case "SCHED_WAKEUP" => Some(SchedWakeup)
    case "SCHED_SWITCH" => Some(SchedSwitch)
    case "NGINX_HTTP_PARSE" => Some(NginxHttpParse)
    case "NGINX_REVERSE_PROXY" => Some(NginxReverseProxy)
    case "NGINX_BACKEND_SOCKET" => Some(NginxBackendSocket)
    case "NGINX_RESPONSE_GEN" => Some(NginxResponseGen)
    case "NGINX_RESPONSE_TX" => Some(NginxResponseTx)
    case "ACCEPT4_ENTER" => Some(Accept4Enter)
    case "ACCEPT4_EXIT" => Some(Accept4Exit)
    case "RECVFROM_ENTER" => Some(RecvfromEnter)
    case "RECVFROM_EXIT" => Some(RecvfromExit)
    case "SENDTO_ENTER" => Some(SendtoEnter)
    case "SENDTO_EXIT" => Some(SendtoExit)
    case "TCP_SENDMSG" => Some(TcpSendmsg)
    case "TCP_WRITE_XMIT" => Some(TcpWriteXmit)
    case "IP_OUTPUT" => Some(IpOutput)
    case "NET_DEV_QUEUE" => Some(NetDevQueue)
    case _ => None
  }

  /** No two named events share a name, and none is called as the unnamed ones are. */
  lemma NameTellsKind(k: Kind)
    ensures KindNamed(EventName(k)) == if k.Other? then None else Some(k)
  {}
}
